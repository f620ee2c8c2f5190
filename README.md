# sRay: the recursive shading routine `trace`

sRay is a small Whitted-style sphere ray tracer. This project models the part of
`sRay.cpp` that decides what colour a ray gets:

- `mix`, the linear interpolation used for the Fresnel weight;
- `trace`, which:
  - finds the nearest sphere along the ray;
  - returns the background colour on a miss;
  - recurses into a reflection ray and, for transparent spheres, a refraction
    ray while the depth is below `MAX_RAY_DEPTH`;
  - otherwise sums the lights' Lambertian contributions, using a hard-shadow
    test;
  - in both cases adds the hit sphere's own emission;
- the constant `MAX_RAY_DEPTH` (5).

Files:

- `wrappers.dfy`: `Option`.
- `vectors.dfy`: `Vec3`. Single-precision floats are modelled as `real`. The
  vector operations (sum, difference, negation, scaling, component-wise
  product, dot product) are modelled component-wise.
- `scene.dfy`: `Sphere`, and `Env`. `Env` bundles the primitives whose code is
  not part of this model (`Sphere::intersect`, `Vec3f::normalize`, `sqrt`,
  `pow`) with the `INFINITY` sentinel. An `Env` value is a parameter of every
  operation, so each result holds for every choice of these primitives,
  except where a hypothesis on them is stated (listed under "Left out").
- `tracer.dfy`: the routine itself. `trace` keeps its imperative form:
  - the method `Trace`, and the methods it calls, follow the source statement
    by statement;
  - each loop is a method proved against a function:
    - the nearest-hit scan: `FindNearest` against `Nearest`;
    - the shadow loop with its `break`: `ShadowTransmission` against
      `Transmission`;
    - the light loop: `Illuminate` against `Illumination`;
  - `Trace` is proved to return `TraceColor`, the recursive function that
    specifies it;
  - `Classify` is the branch policy that `TraceColor` uses.
- `properties.dfy`: properties of `TraceColor`:
  - depth and call-count bounds;
  - the diffuse-branch rules;
  - non-negativity of every returned colour, with the hit sphere's emission as
    a lower bound.

## Model

| member | source | states |
|---|---|---|
| Tracer.MixInterpolates | sRay.cpp:20-23 | `mix(a, b, m) - a = m (b - a)`; it gives `a` at weight 0 and `b` at weight 1, and for weights in [0, 1] stays between `a` and `b`, whichever is larger |
| Tracer.ScanNearest | sRay.cpp:31-44 | the best hit among the first `n` spheres has an index below `n` and a distance below the sentinel. The distance is that sphere's effective distance: `t1` when `t0 < 0`, `t0` otherwise |
| Tracer.ScanNearestIsArgmin | sRay.cpp:31-44 | the scan result is the argmin over the first `n` spheres: earlier hits are strictly farther and later ones are no nearer, so the lowest index wins ties. There is no result exactly when no effective distance is below the sentinel |
| Tracer.NearestIsArgmin | sRay.cpp:28-44 | the same argmin and no-hit characterisation over the whole scene, starting from the `INFINITY` sentinel |
| Tracer.FindNearest | sRay.cpp:28-44 | the scan loop, with its `t0 := t1` replacement and strict `<` update, computes `Nearest` |
| Tracer.Orient | sRay.cpp:59-60 | after the inside test the normal faces the ray (`dir . n <= 0`). `inside` holds exactly when the original dot product was positive, and then the normal is negated; otherwise it is left as it was |
| Tracer.SurfaceAt | sRay.cpp:51-60 | the hit point is `orig + dir * tnear`; the normal and `inside` are the inside test applied to `normalize(phit - center)`, so the normal faces the ray |
| Tracer.HitSurface | sRay.cpp:51-60 | the in-place computation of `phit`, `nhit` and `inside`, including the flip of `nhit`, yields `SurfaceAt` |
| Tracer.EtaReciprocal | sRay.cpp:74 | the ratio is `ior` (1.1) leaving the sphere and its reciprocal entering it; it is below 1 entering and above 1 leaving |
| Tracer.Classify | sRay.cpp:46-80 | a miss exactly when no sphere is hit below the sentinel; the hit is `Nearest`'s. The reflective/transparent branch is taken exactly when transparency or reflection is positive and `depth < 5`, and each secondary ray carries `depth + 1`. A refraction ray exists exactly when transparency is nonzero |
| Tracer.ShadowTransmission | sRay.cpp:93-109 | transmission is exactly 0 or 1. It is 0 exactly when some sphere other than the light itself meets the shadow ray |
| Tracer.Lambert | sRay.cpp:110 | `max(0, n . l)` is non-negative, at least `n . l`, and equal to one of the two |
| Tracer.Illuminate | sRay.cpp:88-112 | the light loop accumulates `Illumination`. Only spheres whose red emission is positive contribute, each with its shadow transmission, Lambert factor and emission |
| Tracer.ShadeGlobal | sRay.cpp:62-83 | the reflective branch blends the traced reflection and the traced refraction by the Fresnel weight and the transparency, then tints the result by the surface colour. The refraction term is 0 for an opaque sphere |
| Tracer.TraceColorGlobal | sRay.cpp:62-115 | at a hit in the reflective branch, the colour is the blend of the two secondary rays' colours plus the emission |
| Tracer.TraceColorLocal | sRay.cpp:85-115 | at a hit in the diffuse branch, the colour is the accumulated illumination plus the emission |
| Tracer.Trace | sRay.cpp:25-116 | `trace`, with its loops and recursive calls, returns `TraceColor` of the ray |
| TraceProperties.MissIsBackground | sRay.cpp:46-47 | when nothing is hit below the sentinel, the colour is `Vec3f(2)` and no further call is made |
| TraceProperties.DeepBounceIsLocal | sRay.cpp:62-113 | at depth 5 or more, every hit is shaded by the diffuse branch, whatever the sphere's reflectivity and transparency |
| TraceProperties.DepthBound | sRay.cpp:62-79 | the deepest call in the tree of a ray is at least as deep as the ray. Starting at or below 5, no call is deeper than 5. At or past 5, no further call is made |
| TraceProperties.ShallowestIsRoot | sRay.cpp:69-79 | secondary rays are always one level deeper, so the shallowest call in the tree of a ray is the ray itself |
| TraceProperties.InvocationBound | sRay.cpp:62-79 | the tree of calls of a ray at depth `d` has at most `CallBudget(d)` calls, which is one call plus two subtrees one level deeper while `d < 5` |
| TraceProperties.PrimaryRayBound | sRay.cpp:18 | for a primary ray (depth 0), the shallowest call has depth 0 and the deepest at most 5, so every call has depth in [0, 5]; there are at most 63 calls in all |
| TraceProperties.ShadowedLightIsDark | sRay.cpp:93-110 | a light blocked by another sphere contributes exactly 0 |
| TraceProperties.VisibleLightIsLambertian | sRay.cpp:93-110 | an unblocked light contributes surface colour × Lambert factor × emission |
| TraceProperties.NoLightsNoDiffuse | sRay.cpp:88-112 | with no sphere whose red emission is positive, the diffuse colour is black, whatever the other emission channels hold |
| TraceProperties.LightTermNonNegative | sRay.cpp:110 | one light's contribution is non-negative when the colours are |
| TraceProperties.IlluminationNonNegative | sRay.cpp:88-112 | the accumulated diffuse colour is non-negative when the surface colour and the emissions of the lights (spheres whose red emission is positive) are |
| TraceProperties.NormalIsShort | sRay.cpp:54-60 | the oriented normal has exactly the length `normalize` gave it, so it has length at most 1 when every result of `normalize` does |
| TraceProperties.FresnelInUnit | sRay.cpp:64-65 | for a direction and a normal of length at most 1 that face each other, and with `pow(y, 3)` in [0, 1] on [0, 1], the Fresnel weight lies in [0, 1] |
| TraceProperties.BlendNonNegative | sRay.cpp:82 | the blend of non-negative reflection and refraction colours, with a weight in [0, 1], a non-negative transparency and a non-negative surface colour, is non-negative |
| TraceProperties.TraceNonNegative | sRay.cpp:25-116 | for a scene with non-negative colours, emissions and transparencies, for a `normalize` whose results have length at most 1 and a `pow` that keeps the cube in [0, 1], every ray of length at most 1 gets a non-negative colour. On a hit, the colour is at least the hit sphere's emission in every channel |

## Left out

- `render` and `main` are not part of this model:
  - the camera loop only derives primary rays with `tan` and float division;
  - the image is written as a PPM file with float-to-byte truncation;
  - `main` only builds a literal scene.
- `Sphere::intersect` and `Vec3f::normalize` are not part of this model: their
  code lives in headers that are not modelled. They are arbitrary functions
  in `Env`, and no result depends on their formulas, with these exceptions:
  - `TraceNonNegative`, and the second clause of `NormalIsShort`, assume that
    every result of `normalize` has length at most 1;
  - `FresnelInUnit` and `TraceNonNegative` assume that `pow(y, 3)` lies in
    [0, 1] for `y` in [0, 1].
- `sqrt` and `pow` are likewise arbitrary functions in `Env`. The Fresnel and
  refraction arithmetic is combined from them exactly as in the source, but
  nothing is proved about its numeric value beyond `FresnelInUnit`.
- The other `Vec3f` operations are assumed to be component-wise, with `dot`
  as the usual sum of products.
- Floating point: rounding, overflow, NaN and infinities are not modelled.
  The numerically degenerate paths are left unguarded, as in the source:
  - normalising a zero vector;
  - `sqrt(k)` with `k < 0` under total internal reflection.
- `INFINITY`: the sentinel is `Env.infinity`, an arbitrary real. IEEE
  infinity is represented by any value above every distance `intersect`
  reports.
- The shadow test has no distance bound: a sphere beyond the light also blocks
  it. The model keeps this behaviour.
- Tracer.FindNearest: its ensures ties the result to `Nearest`; that this is
  the argmin is stated separately, by `NearestIsArgmin`.
- TraceProperties.TraceNonNegative: the source promises no sign for colours.
  This property holds only under the stated hypotheses on the scene and on
  `normalize` and `pow`.
