/// The parts of Unity's Vector2 and of System.Math that the navigation code
/// relies on. Coordinates are exact reals rather than single-precision floats.
module UnityMath {
  datatype Vector2 = Vector2(x: real, y: real)

  const Zero: Vector2 := Vector2(0.0, 0.0)

  /// float.Epsilon, the smallest positive single-precision value.
  const FloatEpsilon: real := 1.401298e-45

  /// Vector2.kEpsilon, the tolerance of Unity's vector equality and normalisation.
  const VectorEpsilon: real := 0.00001

  function Add(a: Vector2, b: Vector2): Vector2 {
    Vector2(a.x + b.x, a.y + b.y)
  }

  function Sub(a: Vector2, b: Vector2): Vector2 {
    Vector2(a.x - b.x, a.y - b.y)
  }

  function Scale(k: real, a: Vector2): Vector2 {
    Vector2(k * a.x, k * a.y)
  }

  function Dot(a: Vector2, b: Vector2): real {
    a.x * b.x + a.y * b.y
  }

  lemma SquarePositive(r: real)
    ensures r * r >= 0.0
  {
    if r < 0.0 {
      assert r * r == (-r) * (-r);
    }
  }

  function SqrMagnitude(a: Vector2): (r: real)
    ensures r >= 0.0
  {
    SquarePositive(a.x);
    SquarePositive(a.y);
    a.x * a.x + a.y * a.y
  }

  /// Unity's `==` on vectors: the squared distance is below kEpsilon squared.
  /// Identical vectors are listed first, which keeps the distance out of
  /// proofs that only meet a vector compared with itself.
  predicate ApproxEqual(a: Vector2, b: Vector2) {
    a == b || SqrMagnitude(Sub(a, b)) < VectorEpsilon * VectorEpsilon
  }

  /// The shortcut for identical vectors changes nothing: Unity's `==` is the
  /// distance test alone.
  lemma ApproxEqualIsDistance(a: Vector2, b: Vector2)
    ensures ApproxEqual(a, b) <==> SqrMagnitude(Sub(a, b)) < VectorEpsilon * VectorEpsilon
  {
    if a == b {
      assert Sub(a, b) == Zero;
    }
  }

  function Abs(r: real): (a: real)
    ensures a >= 0.0 && (a == r || a == -r)
  {
    if r < 0.0 then -r else r
  }

  /// System.Math.Sign: three-valued.
  function Sign(r: real): (s: int)
    ensures -1 <= s <= 1
    ensures s == 0 <==> r == 0.0
    ensures s > 0 <==> r > 0.0
  {
    if r > 0.0 then 1 else if r < 0.0 then -1 else 0
  }

  /// The result of a single-precision division, which is infinite or NaN
  /// where the real quotient does not exist.
  datatype Single = Finite(value: real) | PositiveInfinity | NegativeInfinity | NaN

  /// a / b with the IEEE 754 rules for a zero divisor (taken as +0).
  function Divide(a: real, b: real): (q: Single)
    ensures b != 0.0 ==> q == Finite(a / b)
    ensures b == 0.0 ==> !q.Finite?
  {
    if b != 0.0 then Finite(a / b)
    else if a > 0.0 then PositiveInfinity
    else if a < 0.0 then NegativeInfinity
    else NaN
  }

  /// The IEEE comparisons of a quotient with a constant: NaN compares false.
  predicate Less(f: Single, c: real) {
    match f
    case Finite(v) => v < c
    case NegativeInfinity => true
    case _ => false
  }

  predicate Greater(f: Single, c: real) {
    match f
    case Finite(v) => v > c
    case PositiveInfinity => true
    case _ => false
  }

  predicate AtMost(f: Single, c: real) {
    Less(f, c) || f == Finite(c)
  }

  predicate AtLeast(f: Single, c: real) {
    Greater(f, c) || f == Finite(c)
  }

  /// Mathf.Abs(f) < c.
  predicate AbsLess(f: Single, c: real) {
    f.Finite? && Abs(f.value) < c
  }

  /// Unity's Vector3, for the helpers that take 3-D points.
  datatype Vector3 = Vector3(x: real, y: real, z: real)

  /// The implicit conversion of a Vector2 to a Vector3 with z = 0.
  function ToVector3(v: Vector2): Vector3 {
    Vector3(v.x, v.y, 0.0)
  }
}
