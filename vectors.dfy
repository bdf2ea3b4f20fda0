/** The part of the glm vector library the renderer uses, over exact reals.
    Square root is not computable over reals: every operation that needs it
    takes the square root as a parameter `sqrt`, and `IsSqrt(sqrt)` states
    what is assumed of it. */
module Vectors {

  /** glm::vec3; colours use x, y, z as the r, g, b channels. */
  datatype Vec3 = Vec3(x: real, y: real, z: real)

  /** glm::vec2. */
  datatype Vec2 = Vec2(x: real, y: real)

  const Zero: Vec3 := Vec3(0.0, 0.0, 0.0)

  function Add(a: Vec3, b: Vec3): Vec3 { Vec3(a.x + b.x, a.y + b.y, a.z + b.z) }

  function Sub(a: Vec3, b: Vec3): Vec3 { Vec3(a.x - b.x, a.y - b.y, a.z - b.z) }

  /** Scalar times vector. */
  function Scale(k: real, a: Vec3): Vec3 { Vec3(k * a.x, k * a.y, k * a.z) }

  /** Component-wise product, as glm's `vec3 * vec3`. */
  function Mul(a: Vec3, b: Vec3): Vec3 { Vec3(a.x * b.x, a.y * b.y, a.z * b.z) }

  /** Vector divided by a scalar, as glm's `vec3 / float`. */
  function Div(a: Vec3, k: real): Vec3
    requires k != 0.0
  {
    Vec3(a.x / k, a.y / k, a.z / k)
  }

  function Dot(a: Vec3, b: Vec3): real { a.x * b.x + a.y * b.y + a.z * b.z }

  function Abs(r: real): real { if r < 0.0 then -r else r }

  predicate NonZero(v: Vec3) { v.x != 0.0 || v.y != 0.0 || v.z != 0.0 }

  /** glm::reflect(i, n) = i - 2 * dot(n, i) * n. */
  function Reflect(i: Vec3, n: Vec3): Vec3 { Sub(i, Scale(2.0 * Dot(n, i), n)) }

  /** glm::clamp(v, 0, 1), component-wise. */
  function Clamp01(r: real): (c: real)
    ensures 0.0 <= c <= 1.0
    ensures 0.0 <= r <= 1.0 ==> c == r
    ensures r < 0.0 ==> c == 0.0
    ensures r > 1.0 ==> c == 1.0
  {
    if r < 0.0 then 0.0 else if r > 1.0 then 1.0 else r
  }

  /** What the model assumes of glm::sqrt: exact on non-negative arguments. */
  ghost predicate IsSqrt(sqrt: real -> real)
  {
    forall x: real :: 0.0 <= x ==> 0.0 <= sqrt(x) && sqrt(x) * sqrt(x) == x
  }

  function Sq(r: real): real { r * r }

  /** A product of two positive reals is positive (the product is passed in
      by name so that the solver sees it as one term). */
  lemma ProductPositive(a: real, b: real, p: real)
    requires a > 0.0 && b > 0.0 && p == a * b
    ensures p > 0.0
  {
  }

  lemma ProductNonNegative(a: real, b: real, p: real)
    requires a >= 0.0 && b >= 0.0 && p == a * b
    ensures p >= 0.0
  {
    if a > 0.0 && b > 0.0 { ProductPositive(a, b, p); }
  }

  /** A real square is never negative, and positive unless the real is 0. */
  lemma SquareSign(r: real)
    ensures Sq(r) >= 0.0
    ensures r != 0.0 ==> Sq(r) > 0.0
  {
    if r < 0.0 {
      ProductPositive(-r, -r, Sq(r));
    } else if r > 0.0 {
      ProductPositive(r, r, Sq(r));
    }
  }

  /** A vector's squared length is positive exactly when it is not zero. */
  lemma LengthSquaredPositive(v: Vec3)
    ensures NonZero(v) <==> Dot(v, v) > 0.0
  {
    SquareSign(v.x);
    SquareSign(v.y);
    SquareSign(v.z);
    assert Dot(v, v) == Sq(v.x) + Sq(v.y) + Sq(v.z);
  }

  /** The square root of a positive number is positive. */
  lemma SqrtPositive(sqrt: real -> real, x: real)
    requires IsSqrt(sqrt) && x > 0.0
    ensures sqrt(x) > 0.0
  {
    assert sqrt(x) * sqrt(x) == x;
  }

  /** Dividing by s scales squared length by 1 / s^2, and multiplying back
      by s undoes the division. */
  lemma DotDiv(v: Vec3, s: real)
    requires s != 0.0
    ensures Dot(Div(v, s), Div(v, s)) * (s * s) == Dot(v, v)
    ensures Scale(s, Div(v, s)) == v
  {
    var k := 1.0 / s;
    assert Div(v, s) == Scale(k, v);
    assert Dot(Scale(k, v), Scale(k, v)) == k * k * Dot(v, v);
    assert k * s == 1.0;
    assert k * k * (s * s) == (k * s) * (k * s);
  }

  /** A vector divided by the square root of its squared length has unit
      length. */
  lemma UnitAfterDivision(v: Vec3, len: real)
    requires len > 0.0 && len * len == Dot(v, v)
    ensures Dot(Div(v, len), Div(v, len)) == 1.0
    ensures NonZero(Div(v, len))
    ensures Scale(len, Div(v, len)) == v
  {
    DotDiv(v, len);
    var u := Div(v, len);
    var d, sq := Dot(u, u), len * len;
    ProductPositive(len, len, sq);
    calc {
      d * sq;
      Dot(Div(v, len), Div(v, len)) * (len * len);
      Dot(v, v);
      sq;
    }
    assert (d - 1.0) * sq == 0.0;
    LengthSquaredPositive(u);
  }

  /** glm::normalize: the vector divided by its length. */
  function Normalize(v: Vec3, sqrt: real -> real): (u: Vec3)
    requires IsSqrt(sqrt) && NonZero(v)
    ensures Dot(u, u) == 1.0
    ensures NonZero(u)
    ensures Scale(sqrt(Dot(v, v)), u) == v
  {
    LengthSquaredPositive(v);
    SqrtPositive(sqrt, Dot(v, v));
    var len := sqrt(Dot(v, v));
    UnitAfterDivision(v, len);
    Div(v, len)
  }

  /** Reflecting about a unit normal keeps the length and flips the normal
      component. */
  lemma {:induction false} ReflectMirror(i: Vec3, n: Vec3)
    requires Dot(n, n) == 1.0
    ensures Dot(Reflect(i, n), Reflect(i, n)) == Dot(i, i)
    ensures Dot(Reflect(i, n), n) == -Dot(i, n)
  {
    var k := 2.0 * Dot(n, i);
    var r := Reflect(i, n);
    assert r == Sub(i, Scale(k, n));
    assert Dot(r, r) == Dot(i, i) - 2.0 * k * Dot(i, n) + k * k * Dot(n, n);
    assert Dot(r, n) == Dot(i, n) - k * Dot(n, n);
  }

  /** A non-zero multiple of a non-zero vector is not zero. */
  lemma ScaleNonZero(k: real, v: Vec3)
    requires k != 0.0 && NonZero(v)
    ensures NonZero(Scale(k, v))
  {
    if v.x != 0.0 { assert (k * v.x) / k == v.x; }
    else if v.y != 0.0 { assert (k * v.y) / k == v.y; }
    else { assert (k * v.z) / k == v.z; }
  }
}
