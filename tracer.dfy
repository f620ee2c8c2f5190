/** The recursive shading routine `trace` of the sphere ray tracer and its
    helper `mix`.

    Each loop of `trace` is a method proved against a function: the
    nearest-hit scan (`FindNearest` against `Nearest`), the hard-shadow test
    (`ShadowTransmission` against `Transmission`) and the light loop of the
    diffuse branch (`Illuminate` against `Illumination`). The method `Trace`
    follows the source statement by statement and is proved equal to the
    function `TraceColor`, whose branch decision is `Classify`. */
module Tracer {
  import opened Wrappers
  import opened Vectors
  import opened Scene

  /** Recursion bound on reflection and refraction rays. */
  const MaxRayDepth: int := 5

  /** Offset of secondary-ray origins along the normal. */
  const Bias: real := 0.0001

  /** Fixed index of refraction. */
  const Ior: real := 1.1

  /** Colour returned for a ray that hits nothing. */
  const Background: Vec3 := Splat(2.0)

  /** Linear interpolation from `a` (at 0) to `b` (at 1). */
  function Mix(a: real, b: real, m: real): real
  {
    b * m + a * (1.0 - m)
  }

  /** `mix` moves from `a` towards `b` in proportion to `m`: it gives `a` at 0,
      `b` at 1, and stays between them for weights in [0, 1]. */
  lemma MixInterpolates(a: real, b: real, m: real)
    ensures Mix(a, b, m) - a == m * (b - a)
    ensures Mix(a, b, m) == a <== m == 0.0
    ensures Mix(a, b, m) == b <== m == 1.0
    ensures 0.0 <= m <= 1.0 && a <= b ==> a <= Mix(a, b, m) <= b
    ensures 0.0 <= m <= 1.0 && b <= a ==> b <= Mix(a, b, m) <= a
  {
    assert b - Mix(a, b, m) == (1.0 - m) * (b - a);
    if 0.0 <= m <= 1.0 && a <= b {
      ProductNonNegative(m, b - a);
      ProductNonNegative(1.0 - m, b - a);
    } else if 0.0 <= m <= 1.0 && b <= a {
      ProductNonNegative(m, a - b);
      ProductNonNegative(1.0 - m, a - b);
    }
  }

  lemma ProductNonNegative(x: real, y: real)
    requires 0.0 <= x && 0.0 <= y
    ensures 0.0 <= x * y
  {
  }

  // ---------------------------------------------------------------------
  // Nearest-hit search

  datatype Hit = Hit(index: nat, t: real)

  /** The distance a hit counts for: the near parameter, or the far one when
      the near one lies behind the origin. */
  function Effective(t0: real, t1: real): real
  {
    if t0 < 0.0 then t1 else t0
  }

  /** Effective distance at which the ray meets `s`, if it does. */
  function Candidate(env: Env, s: Sphere, orig: Vec3, dir: Vec3): Option<real>
  {
    match env.intersect(s, orig, dir)
    case None => None
    case Some(ts) => Some(Effective(ts.0, ts.1))
  }

  /** The best hit among the first `n` spheres, scanning in order and
      replacing the best only on a strictly smaller distance. */
  function ScanNearest(env: Env, scene: seq<Sphere>, orig: Vec3, dir: Vec3, n: nat): (best: Option<Hit>)
    requires n <= |scene|
    ensures best.Some? ==> best.value.index < n
    ensures best.Some? ==> best.value.t < env.infinity
    ensures best.Some? ==> Candidate(env, scene[best.value.index], orig, dir) == Some(best.value.t)
  {
    if n == 0 then None
    else
      var prev := ScanNearest(env, scene, orig, dir, n - 1);
      var bound := if prev.Some? then prev.value.t else env.infinity;
      match Candidate(env, scene[n - 1], orig, dir)
      case Some(t) => if t < bound then Some(Hit(n - 1, t)) else prev
      case None => prev
  }

  function Nearest(env: Env, scene: seq<Sphere>, orig: Vec3, dir: Vec3): Option<Hit>
  {
    ScanNearest(env, scene, orig, dir, |scene|)
  }

  /** `h` is the argmin over the first `n` spheres: it hits below the
      sentinel, every earlier hit is strictly farther and every later hit is
      no nearer. */
  ghost predicate IsNearestIn(env: Env, scene: seq<Sphere>, orig: Vec3, dir: Vec3, n: nat, h: Hit)
    requires n <= |scene|
  {
    && h.index < n
    && Candidate(env, scene[h.index], orig, dir) == Some(h.t)
    && h.t < env.infinity
    && (forall j :: 0 <= j < h.index && Candidate(env, scene[j], orig, dir).Some? ==>
          Candidate(env, scene[j], orig, dir).value > h.t)
    && (forall j :: h.index < j < n && Candidate(env, scene[j], orig, dir).Some? ==>
          Candidate(env, scene[j], orig, dir).value >= h.t)
  }

  /** No sphere among the first `n` hits below the sentinel. */
  ghost predicate NoneBelowIn(env: Env, scene: seq<Sphere>, orig: Vec3, dir: Vec3, n: nat)
    requires n <= |scene|
  {
    forall j :: 0 <= j < n && Candidate(env, scene[j], orig, dir).Some? ==>
      Candidate(env, scene[j], orig, dir).value >= env.infinity
  }

  lemma {:induction false} ScanNearestIsArgmin(env: Env, scene: seq<Sphere>, orig: Vec3, dir: Vec3, n: nat)
    requires n <= |scene|
    ensures ScanNearest(env, scene, orig, dir, n).Some? ==>
              IsNearestIn(env, scene, orig, dir, n, ScanNearest(env, scene, orig, dir, n).value)
    ensures ScanNearest(env, scene, orig, dir, n).None? <==> NoneBelowIn(env, scene, orig, dir, n)
  {
    if n > 0 {
      ScanNearestIsArgmin(env, scene, orig, dir, n - 1);
    }
  }

  /** The nearest-hit specification over the whole scene: a hit is the
      argmin of the effective distances (lowest index on ties), and there is
      no hit exactly when no sphere's effective distance is below the
      sentinel. */
  lemma NearestIsArgmin(env: Env, scene: seq<Sphere>, orig: Vec3, dir: Vec3)
    ensures Nearest(env, scene, orig, dir).Some? ==>
              IsNearestIn(env, scene, orig, dir, |scene|, Nearest(env, scene, orig, dir).value)
    ensures Nearest(env, scene, orig, dir).None? <==> NoneBelowIn(env, scene, orig, dir, |scene|)
  {
    ScanNearestIsArgmin(env, scene, orig, dir, |scene|);
  }

  /** The scan loop at the head of `trace`; `nearest` pairs the chosen
      sphere's index with `tnear`. */
  method FindNearest(env: Env, spheres: seq<Sphere>, rayorig: Vec3, raydir: Vec3) returns (nearest: Option<Hit>)
    ensures nearest == Nearest(env, spheres, rayorig, raydir)
  {
    var tnear := env.infinity;
    nearest := None;
    for i := 0 to |spheres|
      invariant nearest == ScanNearest(env, spheres, rayorig, raydir, i)
      invariant tnear == if nearest.Some? then nearest.value.t else env.infinity
    {
      match env.intersect(spheres[i], rayorig, raydir)
      case Some(ts) =>
        var t0, t1 := ts.0, ts.1;
        if t0 < 0.0 {
          t0 := t1;
        }
        if t0 < tnear {
          tnear := t0;
          nearest := Some(Hit(i, t0));
        }
      case None =>
    }
  }

  // ---------------------------------------------------------------------
  // Hit classification

  datatype Ray = Ray(orig: Vec3, dir: Vec3, depth: int)

  /** Hit point, outward-facing-against-the-ray normal, and whether the ray
      started inside the sphere. */
  datatype Surface = Surface(phit: Vec3, nhit: Vec3, inside: bool)

  /** The inside test: the normal is flipped when it points along the ray. */
  function Orient(dir: Vec3, n: Vec3): (r: (Vec3, bool))
    ensures Dot(dir, r.0) <= 0.0
    ensures r.1 <==> Dot(dir, n) > 0.0
    ensures r.0 == if r.1 then Neg(n) else n
  {
    if Dot(dir, n) > 0.0 then (Neg(n), true) else (n, false)
  }

  function SurfaceAt(env: Env, orig: Vec3, dir: Vec3, s: Sphere, tnear: real): (surf: Surface)
    ensures Dot(dir, surf.nhit) <= 0.0
    ensures surf.phit == Add(orig, Scale(dir, tnear))
    ensures (surf.nhit, surf.inside) == Orient(dir, env.normalize(Sub(surf.phit, s.center)))
  {
    var phit := Add(orig, Scale(dir, tnear));
    var o := Orient(dir, env.normalize(Sub(phit, s.center)));
    Surface(phit, o.0, o.1)
  }

  /** Relative index of refraction: `Ior` leaving the sphere, `1 / Ior`
      entering it. */
  function Eta(inside: bool): real
  {
    if inside then Ior else 1.0 / Ior
  }

  /** Entering and leaving use reciprocal ratios, so a ray that goes in and
      comes out again is bent by a net ratio of 1. */
  lemma EtaReciprocal()
    ensures Eta(true) == Ior
    ensures Eta(false) * Eta(true) == 1.0
    ensures 0.0 < Eta(false) < 1.0 < Eta(true)
  {
  }

  /** Fresnel-like blend weight of the reflection ray. */
  function Fresnel(env: Env, dir: Vec3, nhit: Vec3): real
  {
    var facingratio := -Dot(dir, nhit);
    Mix(env.pow(1.0 - facingratio, 3.0), 1.0, 0.1)
  }

  function ReflectDir(env: Env, dir: Vec3, nhit: Vec3): Vec3
  {
    env.normalize(Sub(dir, Scale(Scale(nhit, 2.0), Dot(dir, nhit))))
  }

  function RefractDir(env: Env, dir: Vec3, surf: Surface): Vec3
  {
    var eta := Eta(surf.inside);
    var cosi := -Dot(surf.nhit, dir);
    var k := 1.0 - eta * eta * (1.0 - cosi * cosi);
    env.normalize(Add(Scale(dir, eta), Scale(surf.nhit, eta * cosi - env.sqrt(k))))
  }

  /** The reflection ray, started just outside the surface. */
  function ReflectedRay(env: Env, dir: Vec3, depth: int, surf: Surface): Ray
  {
    Ray(Add(surf.phit, Scale(surf.nhit, Bias)), ReflectDir(env, dir, surf.nhit), depth + 1)
  }

  /** The refraction ray, started just inside the surface. */
  function RefractedRay(env: Env, dir: Vec3, depth: int, surf: Surface): Ray
  {
    Ray(Sub(surf.phit, Scale(surf.nhit, Bias)), RefractDir(env, dir, surf), depth + 1)
  }

  /** The reflective/transparent branch is taken only below the depth bound. */
  predicate Recurses(s: Sphere, depth: int)
  {
    (s.transparency > 0.0 || s.reflection > 0.0) && depth < MaxRayDepth
  }

  /** Which branch `trace` takes for a ray, with the secondary rays it casts. */
  datatype Branch =
    | Miss
    | Local(hit: Hit, surf: Surface)
    | Global(hit: Hit, surf: Surface, reflected: Ray, refracted: Option<Ray>)

  /** The branch policy: a miss exactly when no sphere is hit below the
      sentinel; recursion exactly when the hit sphere reflects or transmits
      and the depth is below the bound, every secondary ray one level deeper;
      a refraction ray exactly when the transparency is nonzero. */
  function Classify(env: Env, scene: seq<Sphere>, ray: Ray): (b: Branch)
    ensures b.Miss? <==> Nearest(env, scene, ray.orig, ray.dir).None?
    ensures !b.Miss? ==> b.hit == Nearest(env, scene, ray.orig, ray.dir).value && b.hit.index < |scene|
    ensures !b.Miss? ==> (b.Global? <==> Recurses(scene[b.hit.index], ray.depth))
    ensures b.Global? ==> ray.depth < MaxRayDepth && b.reflected.depth == ray.depth + 1
    ensures b.Global? ==> (b.refracted.Some? <==> scene[b.hit.index].transparency != 0.0)
    ensures b.Global? && b.refracted.Some? ==> b.refracted.value.depth == ray.depth + 1
  {
    match Nearest(env, scene, ray.orig, ray.dir)
    case None => Miss
    case Some(h) =>
      var s := scene[h.index];
      var surf := SurfaceAt(env, ray.orig, ray.dir, s, h.t);
      if Recurses(s, ray.depth) then
        Global(h, surf, ReflectedRay(env, ray.dir, ray.depth, surf),
               if s.transparency != 0.0 then Some(RefractedRay(env, ray.dir, ray.depth, surf)) else None)
      else
        Local(h, surf)
  }

  // ---------------------------------------------------------------------
  // Diffuse branch: hard shadows and the light loop

  /** Some sphere other than the light itself meets the shadow ray. The test
      has no distance bound: an occluder beyond the light also blocks. */
  predicate Occluded(env: Env, scene: seq<Sphere>, light: nat, origin: Vec3, dir: Vec3)
  {
    exists j :: 0 <= j < |scene| && j != light && env.intersect(scene[j], origin, dir).Some?
  }

  function Transmission(env: Env, scene: seq<Sphere>, light: nat, origin: Vec3, dir: Vec3): Vec3
  {
    if Occluded(env, scene, light, origin, dir) then Splat(0.0) else Splat(1.0)
  }

  /** The inner shadow loop: transmission is 0 or 1, and 0 exactly when a
      sphere other than light `i` meets the shadow ray. */
  method ShadowTransmission(env: Env, spheres: seq<Sphere>, i: nat, origin: Vec3, lightDirection: Vec3)
    returns (transmission: Vec3)
    ensures transmission == Splat(0.0) || transmission == Splat(1.0)
    ensures transmission == Splat(0.0) <==>
              exists j :: 0 <= j < |spheres| && j != i && env.intersect(spheres[j], origin, lightDirection).Some?
    ensures transmission == Transmission(env, spheres, i, origin, lightDirection)
  {
    transmission := Splat(1.0);
    var j := 0;
    while j < |spheres|
      invariant 0 <= j <= |spheres|
      invariant forall k :: 0 <= k < j && k != i ==> env.intersect(spheres[k], origin, lightDirection).None?
    {
      if i != j {
        if env.intersect(spheres[j], origin, lightDirection).Some? {
          transmission := Splat(0.0);
          break;
        }
      }
      j := j + 1;
    }
  }

  /** Lambert factor `max(0, n . l)`. */
  function Lambert(n: Vec3, l: Vec3): (r: real)
    ensures r >= 0.0 && r >= Dot(n, l)
    ensures r == 0.0 || r == Dot(n, l)
  {
    if Dot(n, l) > 0.0 then Dot(n, l) else 0.0
  }

  /** What light `i` adds to the colour of sphere `s` at `phit`. */
  function LightTerm(env: Env, scene: seq<Sphere>, s: Sphere, phit: Vec3, nhit: Vec3, i: nat): Vec3
    requires i < |scene|
  {
    var lightDirection := env.normalize(Sub(scene[i].center, phit));
    var transmission := Transmission(env, scene, i, Add(phit, Scale(nhit, Bias)), lightDirection);
    Mul(Scale(Mul(s.surfaceColor, transmission), Lambert(nhit, lightDirection)), scene[i].emissionColor)
  }

  /** The diffuse colour accumulated over the lights among the first `n`
      spheres. */
  function Illumination(env: Env, scene: seq<Sphere>, s: Sphere, phit: Vec3, nhit: Vec3, n: nat): Vec3
    requires n <= |scene|
  {
    if n == 0 then Zero
    else
      var prev := Illumination(env, scene, s, phit, nhit, n - 1);
      if IsLight(scene[n - 1]) then Add(prev, LightTerm(env, scene, s, phit, nhit, n - 1)) else prev
  }

  /** The light loop of the diffuse branch. */
  method Illuminate(env: Env, spheres: seq<Sphere>, sphere: Sphere, phit: Vec3, nhit: Vec3)
    returns (surfaceColor: Vec3)
    ensures surfaceColor == Illumination(env, spheres, sphere, phit, nhit, |spheres|)
  {
    surfaceColor := Zero;
    for i := 0 to |spheres|
      invariant surfaceColor == Illumination(env, spheres, sphere, phit, nhit, i)
    {
      if spheres[i].emissionColor.x > 0.0 {
        var lightDirection := Sub(spheres[i].center, phit);
        lightDirection := env.normalize(lightDirection);
        var transmission := ShadowTransmission(env, spheres, i, Add(phit, Scale(nhit, Bias)), lightDirection);
        surfaceColor := Add(surfaceColor,
          Mul(Scale(Mul(sphere.surfaceColor, transmission), Lambert(nhit, lightDirection)), spheres[i].emissionColor));
      }
    }
  }

  // ---------------------------------------------------------------------
  // trace

  /** Reflection and refraction combined by the Fresnel weight, modulated by
      the sphere's surface colour. */
  function Blend(reflection: Vec3, refraction: Vec3, fresnel: real, s: Sphere): Vec3
  {
    Mul(Add(Scale(reflection, fresnel), Scale(Scale(refraction, 1.0 - fresnel), s.transparency)), s.surfaceColor)
  }

  /** The colour `trace` returns for `ray`. */
  function TraceColor(env: Env, scene: seq<Sphere>, ray: Ray): Vec3
    decreases MaxRayDepth - ray.depth
  {
    match Classify(env, scene, ray)
    case Miss => Background
    case Local(h, surf) =>
      var s := scene[h.index];
      Add(Illumination(env, scene, s, surf.phit, surf.nhit, |scene|), s.emissionColor)
    case Global(h, surf, reflected, refracted) =>
      var s := scene[h.index];
      var reflection := TraceColor(env, scene, reflected);
      var refraction := if refracted.Some? then TraceColor(env, scene, refracted.value) else Zero;
      Add(Blend(reflection, refraction, Fresnel(env, ray.dir, surf.nhit), s), s.emissionColor)
  }

  /** `TraceColor` at a hit in the reflective/transparent branch. */
  lemma TraceColorGlobal(env: Env, scene: seq<Sphere>, ray: Ray, h: Hit, surf: Surface)
    requires Nearest(env, scene, ray.orig, ray.dir) == Some(h)
    requires h.index < |scene| && surf == SurfaceAt(env, ray.orig, ray.dir, scene[h.index], h.t)
    requires Recurses(scene[h.index], ray.depth)
    ensures TraceColor(env, scene, ray) ==
      Add(Blend(TraceColor(env, scene, ReflectedRay(env, ray.dir, ray.depth, surf)),
                if scene[h.index].transparency != 0.0 then TraceColor(env, scene, RefractedRay(env, ray.dir, ray.depth, surf)) else Zero,
                Fresnel(env, ray.dir, surf.nhit), scene[h.index]),
          scene[h.index].emissionColor)
  {
  }

  /** `TraceColor` at a hit in the diffuse branch. */
  lemma TraceColorLocal(env: Env, scene: seq<Sphere>, ray: Ray, h: Hit, surf: Surface)
    requires Nearest(env, scene, ray.orig, ray.dir) == Some(h)
    requires h.index < |scene| && surf == SurfaceAt(env, ray.orig, ray.dir, scene[h.index], h.t)
    requires !Recurses(scene[h.index], ray.depth)
    ensures TraceColor(env, scene, ray) ==
      Add(Illumination(env, scene, scene[h.index], surf.phit, surf.nhit, |scene|), scene[h.index].emissionColor)
  {
  }

  /** Hit point and normal, with the normal flipped in place when the ray
      starts inside the sphere. */
  method HitSurface(env: Env, rayorig: Vec3, raydir: Vec3, sphere: Sphere, tnear: real)
    returns (phit: Vec3, nhit: Vec3, inside: bool)
    ensures Surface(phit, nhit, inside) == SurfaceAt(env, rayorig, raydir, sphere, tnear)
  {
    phit := Add(rayorig, Scale(raydir, tnear));
    nhit := Sub(phit, sphere.center);
    nhit := env.normalize(nhit);
    inside := false;
    if Dot(raydir, nhit) > 0.0 {
      nhit, inside := Neg(nhit), true;
    }
  }

  /** The reflective/transparent branch: a reflection ray always, a
      refraction ray when the sphere is transparent, blended by the Fresnel
      weight. */
  method ShadeGlobal(env: Env, spheres: seq<Sphere>, raydir: Vec3, depth: int, sphere: Sphere,
                     phit: Vec3, nhit: Vec3, inside: bool)
    returns (surfaceColor: Vec3)
    requires depth < MaxRayDepth
    decreases MaxRayDepth - depth, 0
    ensures
      var surf := Surface(phit, nhit, inside);
      surfaceColor ==
        Blend(TraceColor(env, spheres, ReflectedRay(env, raydir, depth, surf)),
              if sphere.transparency != 0.0 then TraceColor(env, spheres, RefractedRay(env, raydir, depth, surf)) else Zero,
              Fresnel(env, raydir, nhit), sphere)
  {
    var surf := Surface(phit, nhit, inside);
    var fresneleffect := Fresnel(env, raydir, nhit);
    var reflected := ReflectedRay(env, raydir, depth, surf);
    var reflection := Trace(env, spheres, reflected.orig, reflected.dir, depth + 1);
    var refraction := Zero;
    if sphere.transparency != 0.0 {
      var refracted := RefractedRay(env, raydir, depth, surf);
      refraction := Trace(env, spheres, refracted.orig, refracted.dir, depth + 1);
    }
    surfaceColor := Blend(reflection, refraction, fresneleffect, sphere);
  }

  /** `trace` itself. */
  method Trace(env: Env, spheres: seq<Sphere>, rayorig: Vec3, raydir: Vec3, depth: int) returns (color: Vec3)
    decreases MaxRayDepth - depth, 1
    ensures color == TraceColor(env, spheres, Ray(rayorig, raydir, depth))
  {
    var nearest := FindNearest(env, spheres, rayorig, raydir);
    if nearest.None? {
      return Background;
    }
    var tnear := nearest.value.t;
    var sphere := spheres[nearest.value.index];

    var surfaceColor := Zero;
    var phit, nhit, inside := HitSurface(env, rayorig, raydir, sphere, tnear);
    ghost var ray := Ray(rayorig, raydir, depth);
    ghost var surf := Surface(phit, nhit, inside);

    if (sphere.transparency > 0.0 || sphere.reflection > 0.0) && depth < MaxRayDepth {
      surfaceColor := ShadeGlobal(env, spheres, raydir, depth, sphere, phit, nhit, inside);
      TraceColorGlobal(env, spheres, ray, nearest.value, surf);
    } else {
      surfaceColor := Illuminate(env, spheres, sphere, phit, nhit);
      TraceColorLocal(env, spheres, ray, nearest.value, surf);
    }

    color := Add(surfaceColor, sphere.emissionColor);
  }
}
