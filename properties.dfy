/** Properties of `trace`: the bound on its recursion, the rules of the
    diffuse branch, and the non-negativity of the colours it returns. */
module TraceProperties {
  import opened Wrappers
  import opened Vectors
  import opened Scene
  import opened Tracer

  // ---------------------------------------------------------------------
  // Bounded recursion

  function Max(a: int, b: int): int
  {
    if a < b then b else a
  }

  function Min(a: int, b: int): int
  {
    if a < b then a else b
  }

  /** The largest `depth` argument of any `trace` call made while tracing
      `ray`, the call for `ray` itself included. */
  ghost function DeepestCall(env: Env, scene: seq<Sphere>, ray: Ray): int
    decreases MaxRayDepth - ray.depth
  {
    match Classify(env, scene, ray)
    case Global(_, _, reflected, refracted) =>
      var d := DeepestCall(env, scene, reflected);
      var below := if refracted.Some? then Max(d, DeepestCall(env, scene, refracted.value)) else d;
      Max(ray.depth, below)
    case _ => ray.depth
  }

  /** The smallest `depth` argument of any `trace` call made while tracing
      `ray`, the call for `ray` itself included. */
  ghost function ShallowestCall(env: Env, scene: seq<Sphere>, ray: Ray): int
    decreases MaxRayDepth - ray.depth
  {
    match Classify(env, scene, ray)
    case Global(_, _, reflected, refracted) =>
      var d := ShallowestCall(env, scene, reflected);
      var below := if refracted.Some? then Min(d, ShallowestCall(env, scene, refracted.value)) else d;
      Min(ray.depth, below)
    case _ => ray.depth
  }

  /** The number of `trace` calls made while tracing `ray`, itself included. */
  ghost function Invocations(env: Env, scene: seq<Sphere>, ray: Ray): int
    decreases MaxRayDepth - ray.depth
  {
    match Classify(env, scene, ray)
    case Global(_, _, reflected, refracted) =>
      1 + Invocations(env, scene, reflected) +
      (if refracted.Some? then Invocations(env, scene, refracted.value) else 0)
    case _ => 1
  }

  /** Most calls a tree of `trace` calls rooted at `depth` can hold: one call,
      plus two full subtrees one level deeper while below the bound. */
  function CallBudget(depth: int): (b: int)
    decreases MaxRayDepth - depth
    ensures b >= 1
  {
    if depth >= MaxRayDepth then 1 else 1 + 2 * CallBudget(depth + 1)
  }

  /** No call is ever made deeper than the bound (unless the first call
      already was), and a call at or past the bound makes no further call. */
  lemma {:induction false} DepthBound(env: Env, scene: seq<Sphere>, ray: Ray)
    decreases MaxRayDepth - ray.depth
    ensures ray.depth <= DeepestCall(env, scene, ray)
    ensures ray.depth <= MaxRayDepth ==> DeepestCall(env, scene, ray) <= MaxRayDepth
    ensures ray.depth >= MaxRayDepth ==> DeepestCall(env, scene, ray) == ray.depth
  {
    match Classify(env, scene, ray)
    case Global(_, _, reflected, refracted) =>
      DepthBound(env, scene, reflected);
      if refracted.Some? {
        DepthBound(env, scene, refracted.value);
      }
    case _ =>
  }

  /** Secondary rays only go deeper: no call in the tree of a ray is
      shallower than the ray itself. */
  lemma {:induction false} ShallowestIsRoot(env: Env, scene: seq<Sphere>, ray: Ray)
    decreases MaxRayDepth - ray.depth
    ensures ShallowestCall(env, scene, ray) == ray.depth
  {
    match Classify(env, scene, ray)
    case Global(_, _, reflected, refracted) =>
      ShallowestIsRoot(env, scene, reflected);
      if refracted.Some? {
        ShallowestIsRoot(env, scene, refracted.value);
      }
    case _ =>
  }

  /** Each call makes at most two recursive calls, one level deeper. */
  lemma {:induction false} InvocationBound(env: Env, scene: seq<Sphere>, ray: Ray)
    decreases MaxRayDepth - ray.depth
    ensures Invocations(env, scene, ray) <= CallBudget(ray.depth)
  {
    match Classify(env, scene, ray)
    case Global(_, _, reflected, refracted) =>
      InvocationBound(env, scene, reflected);
      if refracted.Some? {
        InvocationBound(env, scene, refracted.value);
      }
    case _ =>
  }

  /** A primary ray (depth 0) leads only to calls at depths 0 to 5, and to at
      most 63 calls in all. */
  lemma PrimaryRayBound(env: Env, scene: seq<Sphere>, orig: Vec3, dir: Vec3)
    ensures ShallowestCall(env, scene, Ray(orig, dir, 0)) == 0
    ensures 0 <= DeepestCall(env, scene, Ray(orig, dir, 0)) <= MaxRayDepth
    ensures Invocations(env, scene, Ray(orig, dir, 0)) <= 63
  {
    ShallowestIsRoot(env, scene, Ray(orig, dir, 0));
    DepthBound(env, scene, Ray(orig, dir, 0));
    InvocationBound(env, scene, Ray(orig, dir, 0));
  }

  /** A ray that hits nothing gets the background colour and makes no call. */
  lemma MissIsBackground(env: Env, scene: seq<Sphere>, ray: Ray)
    requires Nearest(env, scene, ray.orig, ray.dir).None?
    ensures TraceColor(env, scene, ray) == Background
    ensures Invocations(env, scene, ray) == 1
  {
  }

  /** At or past the depth bound every hit is shaded locally: the diffuse
      colour plus the hit sphere's emission, whatever its reflectivity. */
  lemma DeepBounceIsLocal(env: Env, scene: seq<Sphere>, ray: Ray)
    requires ray.depth >= MaxRayDepth
    requires Nearest(env, scene, ray.orig, ray.dir).Some?
    ensures
      var h := Nearest(env, scene, ray.orig, ray.dir).value;
      var surf := SurfaceAt(env, ray.orig, ray.dir, scene[h.index], h.t);
      TraceColor(env, scene, ray) ==
        Add(Illumination(env, scene, scene[h.index], surf.phit, surf.nhit, |scene|), scene[h.index].emissionColor)
  {
  }

  // ---------------------------------------------------------------------
  // Diffuse branch

  /** A light blocked by another sphere contributes nothing. */
  lemma ShadowedLightIsDark(env: Env, scene: seq<Sphere>, s: Sphere, phit: Vec3, nhit: Vec3, i: nat)
    requires i < |scene|
    requires Occluded(env, scene, i, Add(phit, Scale(nhit, Bias)), env.normalize(Sub(scene[i].center, phit)))
    ensures LightTerm(env, scene, s, phit, nhit, i) == Zero
  {
  }

  /** An unblocked light contributes the Lambertian term in full. */
  lemma VisibleLightIsLambertian(env: Env, scene: seq<Sphere>, s: Sphere, phit: Vec3, nhit: Vec3, i: nat)
    requires i < |scene|
    requires !Occluded(env, scene, i, Add(phit, Scale(nhit, Bias)), env.normalize(Sub(scene[i].center, phit)))
    ensures LightTerm(env, scene, s, phit, nhit, i) ==
      Mul(Scale(s.surfaceColor, Lambert(nhit, env.normalize(Sub(scene[i].center, phit)))), scene[i].emissionColor)
  {
  }

  /** Without a sphere whose red emission is positive, the diffuse branch
      yields black, whatever the other emission channels hold. */
  lemma {:induction false} NoLightsNoDiffuse(env: Env, scene: seq<Sphere>, s: Sphere, phit: Vec3, nhit: Vec3, n: nat)
    requires n <= |scene|
    requires forall j :: 0 <= j < n ==> !IsLight(scene[j])
    ensures Illumination(env, scene, s, phit, nhit, n) == Zero
  {
    if n > 0 {
      NoLightsNoDiffuse(env, scene, s, phit, nhit, n - 1);
    }
  }

  // ---------------------------------------------------------------------
  // Non-negative colours

  ghost predicate NonNegative(v: Vec3)
  {
    0.0 <= v.x && 0.0 <= v.y && 0.0 <= v.z
  }

  /** `u` is at least `v` in every channel. */
  ghost predicate AtLeast(u: Vec3, v: Vec3)
  {
    v.x <= u.x && v.y <= u.y && v.z <= u.z
  }

  /** Colours and emissions are non-negative and transparency is not
      negative, as the scene description prescribes. */
  ghost predicate PhysicalScene(scene: seq<Sphere>)
  {
    forall i :: 0 <= i < |scene| ==>
      NonNegative(scene[i].surfaceColor) && NonNegative(scene[i].emissionColor) && 0.0 <= scene[i].transparency
  }

  /** `normalize` never yields a vector longer than 1 (a unit vector, or the
      zero vector left as it is). */
  ghost predicate ShortNormals(env: Env)
  {
    forall v :: Dot(env.normalize(v), env.normalize(v)) <= 1.0
  }

  /** `pow(y, 3)` lies in [0, 1] for `y` in [0, 1]. */
  ghost predicate CubeInUnit(env: Env)
  {
    forall y :: 0.0 <= y <= 1.0 ==> 0.0 <= env.pow(y, 3.0) <= 1.0
  }

  lemma CauchySchwarz(a: Vec3, b: Vec3)
    ensures Dot(a, b) * Dot(a, b) <= Dot(a, a) * Dot(b, b)
  {
    var p := a.x * b.y - a.y * b.x;
    var q := a.y * b.z - a.z * b.y;
    var r := a.x * b.z - a.z * b.x;
    assert Dot(a, a) * Dot(b, b) - Dot(a, b) * Dot(a, b) == p * p + q * q + r * r;
  }

  lemma SquaredLengthNonNegative(a: Vec3)
    ensures 0.0 <= Dot(a, a)
  {
  }

  /** The Fresnel weight lies in [0, 1] for directions of length at most 1
      whose normal faces the ray. */
  lemma FresnelInUnit(env: Env, dir: Vec3, nhit: Vec3)
    requires CubeInUnit(env)
    requires Dot(dir, dir) <= 1.0 && Dot(nhit, nhit) <= 1.0 && Dot(dir, nhit) <= 0.0
    ensures 0.0 <= Fresnel(env, dir, nhit) <= 1.0
  {
    var f := -Dot(dir, nhit);
    CauchySchwarz(dir, nhit);
    SquaredLengthNonNegative(dir);
    SquaredLengthNonNegative(nhit);
    ProductNonNegative(1.0 - Dot(dir, dir), Dot(nhit, nhit));
    ProductNonNegative(Dot(dir, dir), 1.0 - Dot(nhit, nhit));
    assert f * f <= 1.0;
    if f > 1.0 {
      ProductNonNegative(f - 1.0, f - 1.0);
      assert false;
    }
    var p := env.pow(1.0 - f, 3.0);
    assert 0.0 <= p <= 1.0;
    MixInterpolates(p, 1.0, 0.1);
  }

  /** The inside test keeps the length `normalize` gave the normal, so a
      `normalize` with short results gives a short oriented normal. */
  lemma NormalIsShort(env: Env, orig: Vec3, dir: Vec3, s: Sphere, t: real)
    ensures var n := env.normalize(Sub(Add(orig, Scale(dir, t)), s.center));
      Dot(SurfaceAt(env, orig, dir, s, t).nhit, SurfaceAt(env, orig, dir, s, t).nhit) == Dot(n, n)
    ensures ShortNormals(env) ==>
      Dot(SurfaceAt(env, orig, dir, s, t).nhit, SurfaceAt(env, orig, dir, s, t).nhit) <= 1.0
  {
    var n := env.normalize(Sub(Add(orig, Scale(dir, t)), s.center));
    assert Dot(Neg(n), Neg(n)) == Dot(n, n);
  }

  /** One channel of `Blend`: a weighted sum of non-negative terms, tinted
      by a non-negative surface colour, is non-negative. */
  lemma BlendChannelNonNegative(r: real, t: real, f: real, tr: real, c: real)
    requires 0.0 <= r && 0.0 <= t && 0.0 <= f <= 1.0 && 0.0 <= tr && 0.0 <= c
    ensures 0.0 <= (r * f + t * (1.0 - f) * tr) * c
  {
    ProductNonNegative(r, f);
    ProductNonNegative(t, 1.0 - f);
    ProductNonNegative(t * (1.0 - f), tr);
    ProductNonNegative(r * f + t * (1.0 - f) * tr, c);
  }

  lemma BlendNonNegative(reflection: Vec3, refraction: Vec3, fresnel: real, s: Sphere)
    requires NonNegative(reflection) && NonNegative(refraction)
    requires 0.0 <= fresnel <= 1.0
    requires NonNegative(s.surfaceColor) && 0.0 <= s.transparency
    ensures NonNegative(Blend(reflection, refraction, fresnel, s))
  {
    BlendChannelNonNegative(reflection.x, refraction.x, fresnel, s.transparency, s.surfaceColor.x);
    BlendChannelNonNegative(reflection.y, refraction.y, fresnel, s.transparency, s.surfaceColor.y);
    BlendChannelNonNegative(reflection.z, refraction.z, fresnel, s.transparency, s.surfaceColor.z);
  }

  lemma LightTermNonNegative(env: Env, scene: seq<Sphere>, s: Sphere, phit: Vec3, nhit: Vec3, i: nat)
    requires i < |scene|
    requires NonNegative(s.surfaceColor) && NonNegative(scene[i].emissionColor)
    ensures NonNegative(LightTerm(env, scene, s, phit, nhit, i))
  {
    var l := env.normalize(Sub(scene[i].center, phit));
    var tr := Transmission(env, scene, i, Add(phit, Scale(nhit, Bias)), l);
    var lam := Lambert(nhit, l);
    var a := Scale(Mul(s.surfaceColor, tr), lam);
    assert NonNegative(tr);
    ProductNonNegative(s.surfaceColor.x * tr.x, lam);
    ProductNonNegative(s.surfaceColor.y * tr.y, lam);
    ProductNonNegative(s.surfaceColor.z * tr.z, lam);
    ProductNonNegative(a.x, scene[i].emissionColor.x);
    ProductNonNegative(a.y, scene[i].emissionColor.y);
    ProductNonNegative(a.z, scene[i].emissionColor.z);
  }

  /** The diffuse colour is non-negative when the shaded sphere's colour and
      the lights' emissions are. */
  lemma {:induction false} IlluminationNonNegative(env: Env, scene: seq<Sphere>, s: Sphere, phit: Vec3, nhit: Vec3, n: nat)
    requires n <= |scene|
    requires NonNegative(s.surfaceColor)
    requires forall j :: 0 <= j < n && IsLight(scene[j]) ==> NonNegative(scene[j].emissionColor)
    ensures NonNegative(Illumination(env, scene, s, phit, nhit, n))
  {
    if n > 0 {
      IlluminationNonNegative(env, scene, s, phit, nhit, n - 1);
      if IsLight(scene[n - 1]) {
        LightTermNonNegative(env, scene, s, phit, nhit, n - 1);
      }
    }
  }

  /** What `trace` adds to the hit sphere's emission is non-negative; so is
      the colour of every ray, under the conditions above. */
  lemma {:induction false} TraceNonNegative(env: Env, scene: seq<Sphere>, ray: Ray)
    requires PhysicalScene(scene) && ShortNormals(env) && CubeInUnit(env)
    requires Dot(ray.dir, ray.dir) <= 1.0
    decreases MaxRayDepth - ray.depth
    ensures NonNegative(TraceColor(env, scene, ray))
    ensures Nearest(env, scene, ray.orig, ray.dir).Some? ==>
              AtLeast(TraceColor(env, scene, ray), scene[Nearest(env, scene, ray.orig, ray.dir).value.index].emissionColor)
  {
    match Classify(env, scene, ray)
    case Miss =>
    case Local(h, surf) =>
      var s := scene[h.index];
      IlluminationNonNegative(env, scene, s, surf.phit, surf.nhit, |scene|);
    case Global(h, surf, reflected, refracted) =>
      var s := scene[h.index];
      TraceNonNegative(env, scene, reflected);
      if refracted.Some? {
        TraceNonNegative(env, scene, refracted.value);
      }
      var refraction := if refracted.Some? then TraceColor(env, scene, refracted.value) else Zero;
      NormalIsShort(env, ray.orig, ray.dir, s, h.t);
      FresnelInUnit(env, ray.dir, surf.nhit);
      BlendNonNegative(TraceColor(env, scene, reflected), refraction, Fresnel(env, ray.dir, surf.nhit), s);
  }
}
