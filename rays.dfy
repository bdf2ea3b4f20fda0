/** Rays, spheres and materials: Ray::at, Ray::scatter, Ray::intersects and
    nearZero. */
module Rays {
  import opened Vectors

  /** A surface material. `roughness` is stored but nothing reads it;
      `metallic` is a float used as a flag (non-zero means mirror). */
  datatype Material = Material(albedo: Vec3, roughness: real, metallic: real)
  {
    predicate IsMetallic() { metallic != 0.0 }
  }

  datatype Sphere = Sphere(center: Vec3, radius: real, material: Material)

  /** The upper end of the open interval a ray is searched in: a finite bound
      or +infinity. */
  datatype Limit = Below(bound: real) | Unbounded

  /** minT < t < maxT. */
  predicate Inside(t: real, minT: real, maxT: Limit)
  {
    minT < t && (maxT.Below? ==> t < maxT.bound)
  }

  /** The "no intersection" value returned by `Intersects`. */
  const Miss: real := -1.0

  /** std::numeric_limits<float>::epsilon(), 2^-23. */
  const Epsilon: real := 1.0 / 8388608.0

  /** nearZero: every component is strictly within Epsilon of 0. */
  predicate NearZero(v: Vec3)
  {
    Abs(v.x) < Epsilon && Abs(v.y) < Epsilon && Abs(v.z) < Epsilon
  }

  /** The half-coefficient quadratic a*t^2 - 2*h*t + c = 0 whose roots are
      where a ray meets a sphere. */
  datatype Quadratic = Quadratic(a: real, h: real, c: real)
  {
    function Discriminant(): real { h * h - a * c }

    /** The value of a*t^2 - 2*h*t + c. */
    function Eval(t: real): real { a * t * t - 2.0 * h * t + c }
  }

  datatype Ray = Ray(origin: Vec3, direction: Vec3)
  {
    /** Ray::at: the point t direction-lengths along the ray. */
    function At(t: real): (p: Vec3)
      ensures Sub(p, origin) == Scale(t, direction)
    {
      Add(origin, Scale(t, direction))
    }

    /** The coefficients Ray::intersects computes for a sphere:
        a = |direction|^2, h = direction . oc, c = |oc|^2 - radius^2,
        where oc = center - origin. */
    function Coefficients(sphere: Sphere): Quadratic
    {
      var oc := Sub(sphere.center, origin);
      Quadratic(Dot(direction, direction), Dot(direction, oc),
                Dot(oc, oc) - sphere.radius * sphere.radius)
    }

    /** The point at t lies on the sphere's surface. */
    predicate OnSphere(sphere: Sphere, t: real)
    {
      var e := Sub(At(t), sphere.center);
      Dot(e, e) == sphere.radius * sphere.radius
    }

    /** Ray::intersects: the near root (h - sqrt(d)) / a if it lies in
        (minT, maxT), else the far root (h + sqrt(d)) / a if that does, else
        Miss; Miss also when the discriminant d is negative. */
    function Intersects(sphere: Sphere, minT: real, maxT: Limit, sqrt: real -> real): (t: real)
      requires NonZero(direction)
      ensures t == Miss || Inside(t, minT, maxT)
      ensures Coefficients(sphere).Discriminant() < 0.0 ==> t == Miss
    {
      var q := Coefficients(sphere);
      var d := q.Discriminant();
      if d < 0.0 then Miss
      else
        LengthSquaredPositive(direction);
        var s := sqrt(d);
        var near := (q.h - s) / q.a;
        if Inside(near, minT, maxT) then near
        else
          var far := (q.h + s) / q.a;
          if Inside(far, minT, maxT) then far else Miss
    }

    /** Ray::scatter: a ray leaving the hit point p with normal n. A metallic
        material mirrors the incoming segment p - origin about n; otherwise
        the direction is n plus the unit vector `draw`, and n itself stands in
        for `draw` when that sum is near zero. */
    function Scatter(p: Vec3, n: Vec3, mat: Material, draw: Vec3): (r: Ray)
      ensures r.origin == p
    {
      if mat.IsMetallic() then Ray(p, Reflect(Sub(p, origin), n))
      else
        var dir := if NearZero(Add(n, draw)) then n else draw;
        Ray(p, Add(n, dir))
    }
  }

  /** The squared distance from the point at t to the sphere's centre, minus
      radius^2, is the quadratic of `Coefficients` evaluated at t. */
  lemma {:induction false} Displacement(ray: Ray, sphere: Sphere, t: real)
    ensures var e := Sub(ray.At(t), sphere.center);
            Dot(e, e) - sphere.radius * sphere.radius == ray.Coefficients(sphere).Eval(t)
  {
    var oc := Sub(sphere.center, ray.origin);
    var d := ray.direction;
    var e := Sub(ray.At(t), sphere.center);
    assert e == Sub(Scale(t, d), oc);
    assert e.x * e.x == t * t * (d.x * d.x) - 2.0 * t * (d.x * oc.x) + oc.x * oc.x;
    assert e.y * e.y == t * t * (d.y * d.y) - 2.0 * t * (d.y * oc.y) + oc.y * oc.y;
    assert e.z * e.z == t * t * (d.z * d.z) - 2.0 * t * (d.z * oc.z) + oc.z * oc.z;
  }

  /** A product is zero exactly when a factor is. */
  lemma ZeroProduct(x: real, y: real, p: real)
    requires p == x * y
    ensures p == 0.0 <==> x == 0.0 || y == 0.0
  {
    if x != 0.0 && y != 0.0 {
      assert p / x == y;
    }
  }

  /** u == n / a exactly when a * u == n. */
  lemma DivisionIff(n: real, a: real, u: real)
    requires a != 0.0
    ensures u == n / a <==> a * u == n
  {
  }

  /** a times the quadratic completes the square: a * Eval(u) = (a*u - h)^2 - d. */
  lemma CompletedSquare(q: Quadratic, u: real)
    ensures q.a * q.Eval(u) == Sq(q.a * u - q.h) - q.Discriminant()
  {
  }

  /** With a > 0 the roots of the quadratic are exactly (h - s) / a and
      (h + s) / a, where s is the square root of the discriminant; there is
      no root when the discriminant is negative. */
  lemma {:induction false} Roots(q: Quadratic, s: real, u: real)
    requires q.a > 0.0
    ensures q.Discriminant() < 0.0 ==> q.Eval(u) != 0.0
    ensures s >= 0.0 && Sq(s) == q.Discriminant() ==>
              (q.Eval(u) == 0.0 <==> (u == (q.h - s) / q.a || u == (q.h + s) / q.a))
  {
    var w := q.a * u - q.h;
    var e := q.Eval(u);
    var ae := q.a * e;
    CompletedSquare(q, u);
    ZeroProduct(q.a, e, ae);
    if s >= 0.0 && Sq(s) == q.Discriminant() {
      SquareRoots(w, s, ae);
      DivisionIff(q.h - s, q.a, u);
      DivisionIff(q.h + s, q.a, u);
    } else {
      SquareSign(w);
    }
  }

  /** w^2 - s^2 is zero exactly when w is s or -s. */
  lemma SquareRoots(w: real, s: real, p: real)
    requires p == Sq(w) - Sq(s)
    ensures p == 0.0 <==> (w == s || w == -s)
  {
    assert p == (w - s) * (w + s);
    ZeroProduct(w - s, w + s, p);
  }

  /** Dividing by a positive number keeps order. */
  lemma DivisionMonotone(x: real, y: real, a: real)
    requires a > 0.0 && x <= y
    ensures x / a <= y / a
  {
    ProductNonNegative(y - x, 1.0 / a, (y - x) * (1.0 / a));
    assert y / a - x / a == (y - x) * (1.0 / a);
  }

  /** Ray::intersects finds the nearest point of the sphere's surface inside
      (minT, maxT): a non-Miss result lies on the surface; if any surface
      point lies inside the interval, the result is one and no such point
      comes before it; if none does, the result is Miss. */
  lemma {:induction false} IntersectsNearestRoot(ray: Ray, sphere: Sphere, minT: real, maxT: Limit, sqrt: real -> real)
    requires IsSqrt(sqrt) && NonZero(ray.direction)
    ensures var t := ray.Intersects(sphere, minT, maxT, sqrt);
            && (t != Miss ==> Inside(t, minT, maxT) && ray.OnSphere(sphere, t))
            && (forall u :: Inside(u, minT, maxT) && ray.OnSphere(sphere, u) ==>
                  Inside(t, minT, maxT) && ray.OnSphere(sphere, t) && t <= u)
            && ((forall u :: Inside(u, minT, maxT) ==> !ray.OnSphere(sphere, u)) ==> t == Miss)
  {
    var q := ray.Coefficients(sphere);
    var t := ray.Intersects(sphere, minT, maxT, sqrt);
    var d := q.Discriminant();
    LengthSquaredPositive(ray.direction);
    if d < 0.0 {
      forall u | Inside(u, minT, maxT)
        ensures !ray.OnSphere(sphere, u)
      {
        Displacement(ray, sphere, u);
        Roots(q, 0.0, u);
      }
    } else {
      var s := sqrt(d);
      assert Sq(s) == d;
      var near, far := (q.h - s) / q.a, (q.h + s) / q.a;
      DivisionMonotone(q.h - s, q.h + s, q.a);
      Displacement(ray, sphere, near);
      Roots(q, s, near);
      Displacement(ray, sphere, far);
      Roots(q, s, far);
      forall u | Inside(u, minT, maxT) && ray.OnSphere(sphere, u)
        ensures u == near || u == far
      {
        Displacement(ray, sphere, u);
        Roots(q, s, u);
      }
    }
  }

  /** A real of magnitude at most 1 has a square no larger than its magnitude. */
  lemma SquareBelowMagnitude(r: real)
    requires Abs(r) <= 1.0
    ensures Sq(r) <= Abs(r)
  {
    var m := Abs(r);
    assert Sq(r) == m * m;
    ProductNonNegative(m, 1.0 - m, m * (1.0 - m));
  }

  /** A near-zero vector is far shorter than a unit vector. */
  lemma NearZeroIsShort(v: Vec3)
    ensures NearZero(v) ==> Dot(v, v) < 1.0
  {
    if NearZero(v) {
      SquareBelowMagnitude(v.x);
      SquareBelowMagnitude(v.y);
      SquareBelowMagnitude(v.z);
      assert Dot(v, v) == Sq(v.x) + Sq(v.y) + Sq(v.z);
    }
  }

  /** What Ray::scatter guarantees about the new direction for a unit normal:
      a diffuse bounce never leaves along a near-zero (so never a zero)
      direction, thanks to the fallback to n; a metallic bounce is a mirror
      image of the incoming segment, of the same length, with the normal
      component flipped. */
  lemma {:induction false} ScatterDirection(ray: Ray, p: Vec3, n: Vec3, mat: Material, draw: Vec3)
    requires Dot(n, n) == 1.0
    ensures var r := ray.Scatter(p, n, mat, draw);
            var incoming := Sub(p, ray.origin);
            && (!mat.IsMetallic() ==>
                  && r.direction == (if NearZero(Add(n, draw)) then Add(n, n) else Add(n, draw))
                  && !NearZero(r.direction)
                  && NonZero(r.direction))
            && (mat.IsMetallic() ==>
                  && r.direction == Reflect(incoming, n)
                  && Dot(r.direction, r.direction) == Dot(incoming, incoming)
                  && Dot(r.direction, n) == -Dot(incoming, n)
                  && (NonZero(r.direction) <==> NonZero(incoming)))
  {
    var r := ray.Scatter(p, n, mat, draw);
    var incoming := Sub(p, ray.origin);
    if mat.IsMetallic() {
      ReflectMirror(incoming, n);
      LengthSquaredPositive(r.direction);
      LengthSquaredPositive(incoming);
    } else {
      var twice := Add(n, n);
      assert Dot(twice, twice) == 4.0 * Dot(n, n);
      NearZeroIsShort(twice);
    }
  }
}
