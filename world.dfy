/** The scene and the integrator: World::hit and World::color. */
module Tracer {
  import opened Vectors
  import opened Wrappers
  import opened Rays

  datatype Camera = Camera(position: Vec3)

  /** The scene: a camera and an ordered sequence of spheres, read-only while
      rendering. */
  datatype World = World(camera: Camera, spheres: seq<Sphere>)
  {
    /** Every sphere has a positive radius. */
    predicate Valid()
    {
      forall i :: 0 <= i < |spheres| ==> spheres[i].radius > 0.0
    }

    /** Every albedo channel lies in [0, 1] (the source does not check this). */
    predicate AlbedosInRange()
    {
      forall i :: 0 <= i < |spheres| ==> InUnitCube(spheres[i].material.albedo)
    }
  }

  predicate InUnitCube(v: Vec3)
  {
    0.0 <= v.x <= 1.0 && 0.0 <= v.y <= 1.0 && 0.0 <= v.z <= 1.0
  }

  /** HitRecord: the index of the sphere hit (None for the null pointer) and
      the ray parameter t. */
  datatype HitRecord = HitRecord(sphere: Option<nat>, t: real)

  /** The lower bound World::hit searches from (against shadow acne). */
  const HitMinT: real := 0.001

  /** std::numeric_limits<float>::max(), the initial closestT. */
  const FloatMax: real := 340282346638528859811704183484516925440.0

  /** An intersection value World::hit can keep: not negative and no larger
      than its initial closestT. Every finite float is at most FloatMax, and
      Ray::intersects never returns +infinity (it fails `t >= maxT`), so in
      the source's arithmetic this is "not negative". */
  predicate Candidate(t: real) { 0.0 <= t <= FloatMax }

  /** The value of Ray::intersects(spheres[j], 0.001, infinity), as World::hit
      computes it for sphere j. */
  function SphereT(spheres: seq<Sphere>, ray: Ray, sqrt: real -> real, j: nat): real
    requires j < |spheres| && NonZero(ray.direction)
  {
    ray.Intersects(spheres[j], HitMinT, Unbounded, sqrt)
  }

  /** The record World::hit holds after scanning the first n spheres. It is
      empty exactly when none of them is a candidate; otherwise it names a
      candidate whose t is the least of all candidates, and every later
      sphere's candidate t is strictly larger, so of equal values the last
      one scanned wins. */
  function HitAmong(spheres: seq<Sphere>, ray: Ray, sqrt: real -> real, n: nat): (r: HitRecord)
    requires n <= |spheres| && NonZero(ray.direction)
    ensures r.sphere.None? <==> forall j :: 0 <= j < n ==> !Candidate(SphereT(spheres, ray, sqrt, j))
    ensures r.sphere.None? ==> r.t == FloatMax
    ensures r.sphere.Some? ==>
              && r.sphere.value < n
              && r.t == SphereT(spheres, ray, sqrt, r.sphere.value)
              && Candidate(r.t)
              && (forall j :: 0 <= j < n && Candidate(SphereT(spheres, ray, sqrt, j)) ==>
                    r.t <= SphereT(spheres, ray, sqrt, j))
              && (forall j :: r.sphere.value < j < n && Candidate(SphereT(spheres, ray, sqrt, j)) ==>
                    r.t < SphereT(spheres, ray, sqrt, j))
  {
    if n == 0 then HitRecord(None, FloatMax)
    else
      var prev := HitAmong(spheres, ray, sqrt, n - 1);
      var t := SphereT(spheres, ray, sqrt, n - 1);
      if t < 0.0 || t > prev.t then prev else HitRecord(Some(n - 1), t)
  }

  /** The record World::hit returns for the whole scene. */
  function ClosestHit(world: World, ray: Ray, sqrt: real -> real): HitRecord
    requires NonZero(ray.direction)
  {
    HitAmong(world.spheres, ray, sqrt, |world.spheres|)
  }

  /** World::hit: one pass over the spheres keeping the running closestT and
      the sphere it came from. */
  method Hit(world: World, ray: Ray, sqrt: real -> real) returns (record: HitRecord)
    requires NonZero(ray.direction)
    ensures record == ClosestHit(world, ray, sqrt)
  {
    var closestT := FloatMax;
    var closestSphere: Option<nat> := None;
    for i := 0 to |world.spheres|
      invariant HitRecord(closestSphere, closestT) == HitAmong(world.spheres, ray, sqrt, i)
    {
      var t := ray.Intersects(world.spheres[i], HitMinT, Unbounded, sqrt);
      if t < 0.0 || t > closestT {
        continue;
      }
      closestT := t;
      closestSphere := Some(i);
    }
    record := HitRecord(closestSphere, closestT);
  }

  /** The colour returned for a ray that hits nothing. */
  const Sky: Vec3 := Vec3(0.5, 0.8, 0.9)

  /** The colour returned once the bounce budget is spent. */
  const Black: Vec3 := Zero

  /** The factor applied at every bounce, whatever the material. */
  const Attenuation: real := 0.25

  /** A ray leaving a hit, and the position in the stream of unit-sphere
      draws after it (a diffuse bounce uses one draw, a mirror none). */
  datatype Bounced = Bounced(ray: Ray, next: nat)

  /** The part of World::color that follows a hit on sphere i at t: the hit
      point, the outward unit normal (p - center) / radius, and the scattered
      ray. The scattered ray starts at the hit point and is never degenerate,
      so it can be traced again. */
  function Bounce(world: World, ray: Ray, i: nat, t: real, sqrt: real -> real,
                  draws: nat -> Vec3, k: nat): (b: Bounced)
    requires world.Valid() && IsSqrt(sqrt) && NonZero(ray.direction)
    requires i < |world.spheres| && t == SphereT(world.spheres, ray, sqrt, i) && Candidate(t)
    ensures b.ray.origin == ray.At(t)
    ensures NonZero(b.ray.direction)
    ensures b.next == if world.spheres[i].material.IsMetallic() then k else k + 1
  {
    var sphere := world.spheres[i];
    var p := ray.At(t);
    var n := Div(Sub(p, sphere.center), sphere.radius);
    UnitNormal(world, ray, i, t, sqrt);
    ScatterDirection(ray, p, n, sphere.material, draws(k));
    var next := if sphere.material.IsMetallic() then k else k + 1;
    Bounced(ray.Scatter(p, n, sphere.material, draws(k)), next)
  }

  /** At a hit the normal has unit length, and the segment from the ray's
      origin to the hit point is not zero. */
  lemma {:induction false} UnitNormal(world: World, ray: Ray, i: nat, t: real, sqrt: real -> real)
    requires world.Valid() && IsSqrt(sqrt) && NonZero(ray.direction)
    requires i < |world.spheres| && t == SphereT(world.spheres, ray, sqrt, i) && Candidate(t)
    ensures var sphere := world.spheres[i];
            var n := Div(Sub(ray.At(t), sphere.center), sphere.radius);
            Dot(n, n) == 1.0 && NonZero(Sub(ray.At(t), ray.origin))
  {
    var sphere := world.spheres[i];
    IntersectsNearestRoot(ray, sphere, HitMinT, Unbounded, sqrt);
    assert ray.OnSphere(sphere, t);
    UnitAfterDivision(Sub(ray.At(t), sphere.center), sphere.radius);
    ScaleNonZero(t, ray.direction);
  }

  /** World::color: black once depth is spent; the sky colour when the ray
      hits nothing; otherwise 0.25 * albedo of the sphere hit, times the
      colour of the scattered ray one level deeper. `draws` is the stream of
      randomUnitVec3OnSphere results and k the position of the next one. */
  function Color(world: World, ray: Ray, depth: real, sqrt: real -> real,
                 draws: nat -> Vec3, k: nat): (s: Shade)
    requires world.Valid() && IsSqrt(sqrt) && NonZero(ray.direction)
    ensures depth <= 0.0 ==> s == Shade(Black, k)
    ensures depth > 0.0 && ClosestHit(world, ray, sqrt).sphere.None? ==> s == Shade(Sky, k)
    ensures k <= s.next
    decreases if depth <= 0.0 then 0 else depth.Floor + 1
  {
    if depth <= 0.0 then Shade(Black, k)
    else
      var record := ClosestHit(world, ray, sqrt);
      match record.sphere
      case None => Shade(Sky, k)
      case Some(i) =>
        var b := Bounce(world, ray, i, record.t, sqrt, draws, k);
        var rest := Color(world, b.ray, depth - 1.0, sqrt, draws, b.next);
        Shade(Mul(Scale(Attenuation, world.spheres[i].material.albedo), rest.color), rest.next)
  }

  /** A colour together with the stream position after computing it. */
  datatype Shade = Shade(color: Vec3, next: nat)

  /** The spheres a path hits, in order, and whether it ended by escaping to
      the sky (rather than by running out of depth). */
  datatype Path = Path(hits: seq<nat>, escaped: bool)

  /** The path World::color follows from `ray`. */
  function Trace(world: World, ray: Ray, depth: real, sqrt: real -> real,
                 draws: nat -> Vec3, k: nat): (p: Path)
    requires world.Valid() && IsSqrt(sqrt) && NonZero(ray.direction)
    ensures forall j :: 0 <= j < |p.hits| ==> p.hits[j] < |world.spheres|
    decreases if depth <= 0.0 then 0 else depth.Floor + 1
  {
    if depth <= 0.0 then Path([], false)
    else
      var record := ClosestHit(world, ray, sqrt);
      match record.sphere
      case None => Path([], true)
      case Some(i) =>
        var b := Bounce(world, ray, i, record.t, sqrt, draws, k);
        var rest := Trace(world, b.ray, depth - 1.0, sqrt, draws, b.next);
        Path([i] + rest.hits, rest.escaped)
  }

  /** The colour a path carries back: `last` (sky or black), multiplied
      component-wise by 0.25 * albedo of each sphere on the path. */
  function PathColor(world: World, hits: seq<nat>, last: Vec3): Vec3
    requires forall j :: 0 <= j < |hits| ==> hits[j] < |world.spheres|
  {
    if hits == [] then last
    else Mul(Scale(Attenuation, world.spheres[hits[0]].material.albedo), PathColor(world, hits[1..], last))
  }

  /** The number of bounces a depth budget allows: ceil(depth) for a positive
      depth, else none. */
  function Bounces(depth: real): (b: nat)
    ensures depth <= 0.0 ==> b == 0
    ensures depth > 0.0 ==> depth <= b as real < depth + 1.0
    decreases if depth <= 0.0 then 0 else depth.Floor + 1
  {
    if depth <= 0.0 then 0 else 1 + Bounces(depth - 1.0)
  }

  /** World::color is the fold of its path: the result is black when the
      path used up the whole bounce budget, and otherwise the sky colour, in
      both cases multiplied by 0.25 * albedo of every sphere hit. A path
      escapes exactly when it hits fewer spheres than the budget allows. */
  lemma {:induction false} ColorFollowsPath(world: World, ray: Ray, depth: real, sqrt: real -> real,
                                            draws: nat -> Vec3, k: nat)
    requires world.Valid() && IsSqrt(sqrt) && NonZero(ray.direction)
    ensures var p := Trace(world, ray, depth, sqrt, draws, k);
            && Color(world, ray, depth, sqrt, draws, k).color ==
                 PathColor(world, p.hits, if p.escaped then Sky else Black)
            && |p.hits| <= Bounces(depth)
            && (p.escaped <==> |p.hits| < Bounces(depth))
    decreases if depth <= 0.0 then 0 else depth.Floor + 1
  {
    if depth > 0.0 {
      var record := ClosestHit(world, ray, sqrt);
      if record.sphere.Some? {
        var b := Bounce(world, ray, record.sphere.value, record.t, sqrt, draws, k);
        ColorFollowsPath(world, b.ray, depth - 1.0, sqrt, draws, b.next);
        var p := Trace(world, ray, depth, sqrt, draws, k);
        assert p.hits[1..] == Trace(world, b.ray, depth - 1.0, sqrt, draws, b.next).hits;
      }
    }
  }

  /** With every albedo in [0, 1], a path's colour lies component-wise
      between black and its last colour. */
  lemma {:induction false} PathColorBounded(world: World, hits: seq<nat>, last: Vec3)
    requires forall j :: 0 <= j < |hits| ==> hits[j] < |world.spheres|
    requires world.AlbedosInRange() && 0.0 <= last.x && 0.0 <= last.y && 0.0 <= last.z
    ensures var c := PathColor(world, hits, last);
            0.0 <= c.x <= last.x && 0.0 <= c.y <= last.y && 0.0 <= c.z <= last.z
  {
    if hits != [] {
      PathColorBounded(world, hits[1..], last);
      var rest := PathColor(world, hits[1..], last);
      var albedo := world.spheres[hits[0]].material.albedo;
      AttenuateChannel(albedo.x, rest.x, last.x);
      AttenuateChannel(albedo.y, rest.y, last.y);
      AttenuateChannel(albedo.z, rest.z, last.z);
    }
  }

  /** One channel of one bounce: 0.25 * a * c stays within [0, bound]. */
  lemma AttenuateChannel(a: real, c: real, bound: real)
    requires 0.0 <= a <= 1.0 && 0.0 <= c <= bound
    ensures 0.0 <= Attenuation * a * c <= bound
  {
    ProductNonNegative(a, c, a * c);
    ProductNonNegative(1.0 - a, c, (1.0 - a) * c);
    assert Attenuation * a * c == 0.25 * (a * c);
  }

  /** With every albedo in [0, 1], World::color never exceeds the sky colour
      in any channel and is never negative. */
  lemma ColorWithinSky(world: World, ray: Ray, depth: real, sqrt: real -> real,
                       draws: nat -> Vec3, k: nat)
    requires world.Valid() && world.AlbedosInRange() && IsSqrt(sqrt) && NonZero(ray.direction)
    ensures var c := Color(world, ray, depth, sqrt, draws, k).color;
            0.0 <= c.x <= Sky.x && 0.0 <= c.y <= Sky.y && 0.0 <= c.z <= Sky.z
  {
    ColorFollowsPath(world, ray, depth, sqrt, draws, k);
    var p := Trace(world, ray, depth, sqrt, draws, k);
    PathColorBounded(world, p.hits, if p.escaped then Sky else Black);
  }
}
