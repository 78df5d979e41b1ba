/** The records flowing into the shading core (material, intersection) and
    its external collaborators: the scene (lights, ray tracing, shadow
    queries) and the numeric primitives the core treats as opaque. */
module Scenes {
  import opened Options
  import opened Vectors
  import opened Colors
  import opened Rays
  import opened Lights

  /** A refractive index; it divides the incident index, so it is positive. */
  type Eta = e: real | e > 0.0 witness 1.0

  /** Material: ambient, diffuse, specular-reflective and transmissive
      coefficients plus the refractive index. */
  datatype BRDF = BRDF(Ka: RGB, Kd: RGB, Ks: RGB, Kt: RGB, eta: Eta)

  /** The hit record produced by `Scene::trace`. */
  datatype Intersection = Intersection(
    p: Vec3,
    gn: Vec3,
    sn: Vec3,
    wo: Vec3,
    incidentEta: real,
    f: BRDF,
    isLight: bool,
    Le: RGB,
    pixX: int,
    pixY: int,
    faceId: int)

  /** The scene collaborator: its light list, `trace` (None when nothing is
      hit) and `visibility(ray, maxDistance)`. */
  datatype Scene = Scene(
    lights: seq<Light>,
    trace: Ray -> Option<Intersection>,
    visible: (Ray, real) -> bool)

  /** Opaque numerics: `sqrt`, `Vector::normalize`, and the point an
      uninitialised `Point` local happens to hold when it is read. */
  datatype Platform = Platform(
    sqrt: real -> real,
    normalize: Vec3 -> Vec3,
    unsetPoint: Vec3)

  /** `Vector::norm`. */
  function Norm(pl: Platform, v: Vec3): real {
    pl.sqrt(v.NormSq())
  }

  /** `sqrt` returns the non-negative square root of a non-negative input. */
  ghost predicate SqrtSound(sqrt: real -> real) {
    forall x: real :: x >= 0.0 ==> sqrt(x) >= 0.0 && sqrt(x) * sqrt(x) == x
  }

  function AreaCount(lights: seq<Light>): (n: nat)
    ensures n <= |lights|
    ensures n == 0 <==> forall i :: 0 <= i < |lights| ==> !lights[i].Area?
  {
    if |lights| == 0 then 0
    else AreaCount(lights[..|lights| - 1]) + (if lights[|lights| - 1].Area? then 1 else 0)
  }
}
