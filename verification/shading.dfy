/** The recursive shader: emission short-circuit, gated specular reflection
    and transmission continuations, and one UNIFORM_ONE direct-lighting
    estimate per shaded surface point.

    `shade` hands `depth+1` to the specular helpers and they hand `depth+1`
    again to `shade`, so each bounce re-enters `shade` two levels deeper. */
module Shading {
  import opened Options
  import opened Vectors
  import opened Colors
  import opened Rays
  import opened Lights
  import opened Scenes
  import opened DirectLighting

  const MAX_DEPTH: int := 4

  /** Which direction a totally internally reflected transmission ray
      takes: `AsWritten` is the program's `reflect(-wo, sn)`; `Mirror` is the
      mirror direction `reflect(wo, sn)` of the corrected ray. */
  datatype TirRule = AsWritten | Mirror

  /** The shader object: its scene, background radiance, the opaque
      numerics, its random stream (read at a cursor), and the TIR rule.
      With `tir == AsWritten` it is the program's shader. */
  datatype Shader = Shader(scene: Scene, background: RGB, platform: Platform, rng: nat -> real, tir: TirRule)

  /** A shading result: the radiance (None when indeterminate), every ray
      handed to `trace` in call order, and the next unused random cursor. */
  datatype Shaded = Shaded(color: Option<RGB>, traced: seq<Ray>, next: nat)

  // ------------------------------------------------------------- geometry

  /** `reflect(V, N) = 2(N·V)N - V`: the mirror image of V about N. */
  function Reflect(v: Vec3, n: Vec3): Vec3 {
    n.Scale(2.0 * n.Dot(v)).Sub(v)
  }

  /** `refract(V, N, IOR)`: Snell refraction of the incoming direction V,
      with `sqrt` and `normalize` left opaque.  Whatever they compute, the
      result is the normalised sum of `r_out_perp` and a multiple of N. */
  function Refract(pl: Platform, v: Vec3, n: Vec3, ior: real): (r: Vec3)
    ensures exists s: real :: r == pl.normalize(RefractPerp(v, n, ior).Add(n.Scale(s)))
  {
    var perp := RefractPerp(v, n, ior);
    var s := -pl.sqrt(Abs(1.0 - perp.NormSq()));
    pl.normalize(perp.Add(n.Scale(s)))
  }

  /** `r_out_perp = IOR·(V + cosθ·N)`, with `cosθ = min(N·(-V), 1)`. */
  function RefractPerp(v: Vec3, n: Vec3, ior: real): Vec3 {
    v.Add(n.Scale(Min(n.Dot(v.Neg()), 1.0))).Scale(ior)
  }

  /** For a unit normal and an unclamped cosine, `r_out_perp` is tangent to
      the surface: it has no component along N. */
  lemma RefractPerpIsTangent(v: Vec3, n: Vec3, ior: real)
    requires n.Dot(n) == 1.0 && n.Dot(v.Neg()) <= 1.0
    ensures n.Dot(RefractPerp(v, n, ior)) == 0.0
  {
    var c := n.Dot(v.Neg());
    NegDot(n, v);
    var u := v.Add(n.Scale(c));
    DotAlongNormal(n, v, c);
    assert n.Dot(u) == 0.0;
    DotOfScaled(n, u, ior);
  }

  lemma NegDot(n: Vec3, v: Vec3)
    ensures n.Dot(v.Neg()) == -n.Dot(v)
  {
  }

  lemma DotAlongNormal(n: Vec3, v: Vec3, c: real)
    ensures n.Dot(v.Add(n.Scale(c))) == n.Dot(v) + c * n.Dot(n)
  {
    assert n.x * (v.x + c * n.x) == n.x * v.x + c * (n.x * n.x);
    assert n.y * (v.y + c * n.y) == n.y * v.y + c * (n.y * n.y);
    assert n.z * (v.z + c * n.z) == n.z * v.z + c * (n.z * n.z);
  }

  lemma DotOfScaled(n: Vec3, u: Vec3, s: real)
    requires n.Dot(u) == 0.0
    ensures n.Dot(u.Scale(s)) == 0.0
  {
    assert n.Dot(u.Scale(s)) == s * n.Dot(u);
  }

  function Min(a: real, b: real): real {
    if a <= b then a else b
  }

  function Abs(a: real): real {
    if a < 0.0 then -a else a
  }

  /** For a unit normal, reflecting keeps the component along the normal. */
  lemma ReflectKeepsNormalComponent(v: Vec3, n: Vec3)
    requires n.Dot(n) == 1.0
    ensures n.Dot(Reflect(v, n)) == n.Dot(v)
  {
    var c := n.Dot(v);
    DotScale(n, 2.0 * c, n);
    assert n.Dot(Reflect(v, n)) == n.Dot(n.Scale(2.0 * c)) - c;
    assert n.Dot(n.Scale(2.0 * c)) == 2.0 * c * n.Dot(n);
  }

  /** For a unit normal, reflecting twice gives back the original vector. */
  lemma ReflectInvolution(v: Vec3, n: Vec3)
    requires n.Dot(n) == 1.0
    ensures Reflect(Reflect(v, n), n) == v
  {
    ReflectKeepsNormalComponent(v, n);
  }

  /** Reflection is linear in the reflected vector: reflecting -V gives
      the negated reflection of V. */
  lemma ReflectNegates(v: Vec3, n: Vec3)
    ensures Reflect(v.Neg(), n) == Reflect(v, n).Neg()
  {
    DotScale(v, -1.0, n);
    assert n.Dot(v.Neg()) == -n.Dot(v);
  }

  // ---------------------------------------------------------- secondary rays

  /** The mirror ray of `specularReflection`: from the hit point along
      `reflect(wo, sn)`, keeping pixel, face and the incident medium's
      index, origin pushed off along the geometric normal. */
  function ReflectionRay(isect: Intersection): (r: Ray)
    ensures r.dir == Reflect(isect.wo, isect.sn)
    ensures r.propagatingEta == Some(isect.incidentEta)
    ensures r.pixX == Some(isect.pixX) && r.pixY == Some(isect.pixY) && r.faceId == Some(isect.faceId)
    ensures r.throughput.None? && r.invDir.None?
    ensures r.dir.Dot(isect.gn) >= 0.0 ==> r.o == isect.p.Add(isect.gn.Scale(EPSILON))
    ensures r.dir.Dot(isect.gn) < 0.0 ==> r.o == isect.p.Sub(isect.gn.Scale(EPSILON))
  {
    var ray := Create(isect.p, Reflect(isect.wo, isect.sn));
    var ray := ray.(pixX := Some(isect.pixX), pixY := Some(isect.pixY));
    var ray := ray.(faceId := Some(isect.faceId));
    var ray := ray.AdjustOrigin(isect.gn);
    ray.(propagatingEta := Some(isect.incidentEta))
  }

  /** Relative index of refraction, `incident_eta / f->eta`. */
  function Ior(isect: Intersection): (ior: real)
    ensures ior * isect.f.eta == isect.incidentEta
  {
    isect.incidentEta / isect.f.eta
  }

  /** `cos_theta = min(N·(-V), 1)` with V = -wo. */
  function CosTheta(isect: Intersection): real {
    Min(isect.sn.Dot(isect.wo.Neg().Neg()), 1.0)
  }

  /** The TIR cosine is the cosine between the shading normal and the
      outgoing direction, clamped at 1. */
  lemma CosThetaClamps(isect: Intersection)
    ensures CosTheta(isect) <= 1.0
    ensures isect.sn.Dot(isect.wo) <= 1.0 ==> CosTheta(isect) == isect.sn.Dot(isect.wo)
    ensures isect.sn.Dot(isect.wo) > 1.0 ==> CosTheta(isect) == 1.0
  {
    NegNeg(isect.wo);
  }

  lemma NegNeg(v: Vec3)
    ensures v.Neg().Neg() == v
  {
  }

  function SinTheta(pl: Platform, isect: Intersection): real {
    pl.sqrt(1.0 - Sq(CosTheta(isect)))
  }

  function Sq(x: real): real {
    x * x
  }

  /** Total internal reflection: `IOR·sinθ > 1`. */
  predicate Tir(pl: Platform, isect: Intersection) {
    Ior(isect) * SinTheta(pl, isect) > 1.0
  }

  /** The transmission ray, given the direction taken under total internal
      reflection: refracted otherwise; the origin is pushed off along the
      negated geometric normal; the index stays the incident one under TIR
      and becomes the material's otherwise. */
  function TransmissionRayWith(pl: Platform, isect: Intersection, mirror: Vec3): (r: Ray)
    ensures r.dir == (if Tir(pl, isect) then mirror else Refract(pl, isect.wo.Neg(), isect.sn, Ior(isect)))
    ensures r.propagatingEta == Some(if Tir(pl, isect) then isect.incidentEta else isect.f.eta as real)
    ensures r.pixX == Some(isect.pixX) && r.pixY == Some(isect.pixY) && r.faceId == Some(isect.faceId)
    ensures r.throughput.None? && r.invDir.None?
    ensures r.dir.Dot(isect.gn.Neg()) >= 0.0 ==> r.o == isect.p.Add(isect.gn.Neg().Scale(EPSILON))
    ensures r.dir.Dot(isect.gn.Neg()) < 0.0 ==> r.o == isect.p.Sub(isect.gn.Neg().Scale(EPSILON))
  {
    var v := isect.wo.Neg();
    var tir := Tir(pl, isect);
    var dir := if tir then mirror else Refract(pl, v, isect.sn, Ior(isect));
    var ray := Create(isect.p, dir);
    var ray := ray.(pixX := Some(isect.pixX), pixY := Some(isect.pixY));
    var ray := ray.(faceId := Some(isect.faceId));
    var ray := ray.AdjustOrigin(isect.gn.Neg());
    ray.(propagatingEta := Some(if tir then isect.incidentEta else isect.f.eta as real))
  }

  /** The transmission ray as the source builds it: under TIR it follows
      `reflect(V, N)` with V = -wo the incoming direction. */
  function TransmissionRayAsWritten(pl: Platform, isect: Intersection): (r: Ray)
    ensures Tir(pl, isect) ==> r.dir == Reflect(isect.wo.Neg(), isect.sn)
    ensures Tir(pl, isect) ==> r.dir == Reflect(isect.wo, isect.sn).Neg()
  {
    ReflectNegates(isect.wo, isect.sn);
    TransmissionRayWith(pl, isect, Reflect(isect.wo.Neg(), isect.sn))
  }

  /** The transmission ray with TIR taking the mirror direction of the
      outgoing vector, the same direction `specularReflection` uses, so the
      ray stays in the incident medium as its index says. */
  function TransmissionRay(pl: Platform, isect: Intersection): (r: Ray)
    ensures Tir(pl, isect) ==>
              r.dir == Reflect(isect.wo, isect.sn) && r.dir == ReflectionRay(isect).dir
    ensures Tir(pl, isect) ==> r.propagatingEta == Some(isect.incidentEta)
    ensures !Tir(pl, isect) ==> r == TransmissionRayAsWritten(pl, isect)
  {
    TransmissionRayWith(pl, isect, Reflect(isect.wo, isect.sn))
  }

  /** The transmission ray `specularTransmission` traces under the
      shader's TIR rule. */
  function ShaderTransmissionRay(sh: Shader, isect: Intersection): Ray {
    match sh.tir
    case AsWritten => TransmissionRayAsWritten(sh.platform, isect)
    case Mirror => TransmissionRay(sh.platform, isect)
  }

  /** Away from total internal reflection the two rules trace the same ray. */
  lemma RulesAgreeWithoutTir(sh: Shader, isect: Intersection, rule: TirRule)
    requires !Tir(sh.platform, isect)
    ensures ShaderTransmissionRay(sh, isect) == ShaderTransmissionRay(sh.(tir := rule), isect)
  {
  }

  // -------------------------------------------------------------- recursion

  /** Remaining shading levels that may still spawn specular rays. */
  function Budget(depth: int): nat {
    if depth < MAX_DEPTH then MAX_DEPTH - depth else 0
  }

  /** The most rays a `shade` call at `depth` can hand to `trace`: each
      gated-in continuation traces one ray and re-enters two levels down. */
  function TraceBound(depth: int): nat
    decreases Budget(depth)
  {
    if depth < MAX_DEPTH then 2 + 2 * TraceBound(depth + 2) else 0
  }

  /** The gate on the reflection continuation: a specular coefficient and
      depth still below the limit. */
  predicate ReflectGate(isect: Intersection, depth: int) {
    !isect.f.Ks.IsZero() && depth < MAX_DEPTH
  }

  /** The gate on the transmission continuation: a transmission coefficient
      and depth still below the limit. */
  predicate TransmitGate(isect: Intersection, depth: int) {
    !isect.f.Kt.IsZero() && depth < MAX_DEPTH
  }

  /** `DistributedShader::shade`. */
  function Shade(sh: Shader, hit: Option<Intersection>, depth: int, k: nat): (r: Shaded)
    decreases Budget(depth), 1
    ensures hit.None? ==> r == Shaded(Some(sh.background), [], k)
    ensures hit.Some? && hit.value.isLight ==> r == Shaded(Some(hit.value.Le), [], k)
    ensures |r.traced| <= TraceBound(depth)
    ensures r.next >= k
  {
    match hit
    case None => Shaded(Some(sh.background), [], k)
    case Some(isect) =>
      if isect.isLight then Shaded(Some(isect.Le), [], k)
      else
        var f := isect.f;
        var refl :=
          if ReflectGate(isect, depth) then SpecularReflection(sh, isect, depth + 1, k)
          else Shaded(Some(Black), [], k);
        var trans :=
          if TransmitGate(isect, depth) then SpecularTransmission(sh, isect, depth + 1, refl.next)
          else Shaded(Some(Black), [], refl.next);
        var direct := Direct(sh.scene, sh.platform, sh.rng, isect, f, UniformOne, trans.next);
        var color := OptAdd(OptAdd(OptAdd(Some(Black), refl.color), trans.color), direct.color);
        Shaded(color, refl.traced + trans.traced, direct.next)
  }

  /** `specularReflection`: trace the mirror ray, shade its hit one level
      deeper, weight by Ks. */
  function SpecularReflection(sh: Shader, isect: Intersection, depth: int, k: nat): (r: Shaded)
    requires depth <= MAX_DEPTH
    decreases MAX_DEPTH + 1 - depth, 0
    ensures |r.traced| <= 1 + TraceBound(depth + 1)
    ensures |r.traced| >= 1 && r.traced[0] == ReflectionRay(isect)
    ensures r.next >= k
  {
    var ray := ReflectionRay(isect);
    var s := Shade(sh, sh.scene.trace(ray), depth + 1, k);
    Shaded(OptMul(isect.f.Ks, s.color), [ray] + s.traced, s.next)
  }

  /** `specularTransmission`: trace the transmission ray, shade its hit one
      level deeper, weight by Kt. */
  function SpecularTransmission(sh: Shader, isect: Intersection, depth: int, k: nat): (r: Shaded)
    requires depth <= MAX_DEPTH
    decreases MAX_DEPTH + 1 - depth, 0
    ensures |r.traced| <= 1 + TraceBound(depth + 1)
    ensures |r.traced| >= 1 && r.traced[0] == ShaderTransmissionRay(sh, isect)
    ensures r.next >= k
  {
    var ray := ShaderTransmissionRay(sh, isect);
    var s := Shade(sh, sh.scene.trace(ray), depth + 1, k);
    Shaded(OptMul(isect.f.Kt, s.color), [ray] + s.traced, s.next)
  }
}
