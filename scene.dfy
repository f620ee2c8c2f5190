/** The scene: spheres, and the geometric primitives whose code lies outside
    the tracer. */
module Scene {
  import opened Wrappers
  import opened Vectors

  /** A sphere as the tracer reads it. `reflection` and `transparency` are the
      reflectivity and transparency weights; an emission colour whose red
      component is positive makes the sphere a light. */
  datatype Sphere = Sphere(
    center: Vec3,
    radius: real,
    surfaceColor: Vec3,
    emissionColor: Vec3,
    transparency: real,
    reflection: real)

  /** What the tracer calls but does not define, kept abstract:
      - `intersect(s, orig, dir)` is `Sphere::intersect`: `None` for a miss,
        `Some((t0, t1))` with the near and far ray parameters for a hit;
      - `normalize` is `Vec3f::normalize`;
      - `sqrt` and `pow` are the C library functions;
      - `infinity` is the initial nearest distance, the macro `INFINITY`
        (the constant 1e8 on Windows builds, IEEE infinity elsewhere; the
        latter is represented by any value above every distance `intersect`
        reports). */
  datatype Env = Env(
    intersect: (Sphere, Vec3, Vec3) -> Option<(real, real)>,
    normalize: Vec3 -> Vec3,
    sqrt: real -> real,
    pow: (real, real) -> real,
    infinity: real)

  /** Only the red channel of the emission decides whether a sphere is a light. */
  predicate IsLight(s: Sphere)
  {
    s.emissionColor.x > 0.0
  }
}
