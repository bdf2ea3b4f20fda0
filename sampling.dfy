/** The random sampling helpers. The generator itself (a default-seeded
    std::mt19937 behind a uniform [0, 1) distribution) is not modelled: each
    helper takes the generator's draws as arguments, and callers that draw
    repeatedly take the whole stream. */
module Sampling {
  import opened Vectors
  import opened Wrappers

  /** std::numeric_limits<float>::min(), the smallest normal float, 2^-126. */
  const FloatMin: real := 1.0 / 85070591730234615865843651857942052864.0

  /** randomFloat(min, max) = min + (max - min) * randomFloat(), where `u` is
      the generator's draw in [0, 1). */
  function RandomFloat(min: real, max: real, u: real): (r: real)
    ensures min < max && 0.0 <= u < 1.0 ==> min <= r < max
  {
    var p := (max - min) * u;
    AffineOrder(max - min, u, p);
    min + p
  }

  /** A draw in [0, 1) scaled by a positive width lies in [0, width). */
  lemma AffineOrder(width: real, u: real, p: real)
    requires p == width * u
    ensures width > 0.0 && 0.0 <= u < 1.0 ==> 0.0 <= p < width
  {
    if width > 0.0 && 0.0 <= u < 1.0 {
      ProductPositive(width, 1.0 - u, width - p);
      if u > 0.0 { ProductPositive(width, u, p); }
    }
  }

  /** randomVec2(min, max): two draws, x first. */
  function RandomVec2(min: real, max: real, u0: real, u1: real): (v: Vec2)
    ensures min < max && 0.0 <= u0 < 1.0 && 0.0 <= u1 < 1.0 ==>
              min <= v.x < max && min <= v.y < max
  {
    Vec2(RandomFloat(min, max, u0), RandomFloat(min, max, u1))
  }

  /** randomVec3(min, max): three draws, x first. */
  function RandomVec3(min: real, max: real, u: Vec3): (v: Vec3)
    ensures min < max && 0.0 <= u.x < 1.0 && 0.0 <= u.y < 1.0 && 0.0 <= u.z < 1.0 ==>
              min <= v.x < max && min <= v.y < max && min <= v.z < max
  {
    Vec3(RandomFloat(min, max, u.x), RandomFloat(min, max, u.y), RandomFloat(min, max, u.z))
  }

  /** The acceptance test of the rejection sampler on a squared length. */
  predicate Accepts(l: real) { FloatMin < l && l <= 1.0 }

  /** The cube point randomVec3(-1, 1) makes of the draw triple u. */
  function CubePoint(u: Vec3): Vec3
  {
    RandomVec3(-1.0, 1.0, u)
  }

  /** randomUnitVec3OnSphere: turns each triple of randomFloat() draws in
      `draws` into the cube point randomVec3(-1, 1), in order, and returns
      the first point whose squared length lies in (FloatMin, 1], divided by
      its length, together with the number of triples consumed. The source
      keeps drawing until a point is accepted; here draws that run out yield
      None. */
  method RandomUnitVec3OnSphere(draws: seq<Vec3>, sqrt: real -> real)
      returns (dir: Option<Vec3>, used: nat)
    requires IsSqrt(sqrt)
    ensures used <= |draws|
    ensures forall j :: 0 <= j < used - 1 ==> !Accepts(Dot(CubePoint(draws[j]), CubePoint(draws[j])))
    ensures dir.None? <==>
              forall j :: 0 <= j < |draws| ==> !Accepts(Dot(CubePoint(draws[j]), CubePoint(draws[j])))
    ensures dir.None? ==> used == |draws|
    ensures dir.Some? ==> 0 < used
    ensures dir.Some? && 0 < used ==>
              var c := CubePoint(draws[used - 1]);
              && Accepts(Dot(c, c))
              && NonZero(c)
              && dir.value == Normalize(c, sqrt)
              && Dot(dir.value, dir.value) == 1.0
  {
    var i := 0;
    while i < |draws|
      invariant 0 <= i <= |draws|
      invariant forall j :: 0 <= j < i ==> !Accepts(Dot(CubePoint(draws[j]), CubePoint(draws[j])))
    {
      var c := RandomVec3(-1.0, 1.0, draws[i]);
      var l := Dot(c, c);
      if FloatMin < l && l <= 1.0 {
        LengthSquaredPositive(c);
        SqrtPositive(sqrt, l);
        return Some(Div(c, sqrt(l))), i + 1;
      }
      i := i + 1;
    }
    return None, |draws|;
  }
}
