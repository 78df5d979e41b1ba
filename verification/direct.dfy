/** The direct-lighting estimator: per-light contribution rules for ambient,
    point and area lights, the ALL_LIGHTS sum over the light list, the
    UNIFORM_ONE single-light estimate, and the mode dispatch.

    Random numbers come from `rng`, read at a cursor `k` that each estimate
    advances past the numbers it consumed.  A colour of `None` means the
    estimate is not a determinate finite radiance: it divided by a pdf that
    was never written, or read a light outside the list. */
module DirectLighting {
  import opened Options
  import opened Vectors
  import opened Colors
  import opened Rays
  import opened Lights
  import opened Scenes

  datatype SampleMode = AllLights | UniformOne | OtherMode

  /** A colour estimate and the cursor of the next unused random number. */
  datatype Estimate = Estimate(color: Option<RGB>, next: nat)

  /** What `direct_AreaLight` hands back: its colour and the pdf
      out-parameter, which it writes only when Kd is non-zero. */
  datatype AreaTerm = AreaTerm(color: RGB, pdf: Option<real>)

  /** The path from the hit point to a light position: normalised direction,
      distance, cosine with the shading normal, and the shadow ray. */
  datatype LightPath = LightPath(dir: Vec3, distance: real, cos: real, shadow: Ray)

  // ---------------------------------------------------------------- ambient

  /** `direct_AmbientLight`. */
  function DirectAmbient(radiance: RGB, f: BRDF): (c: RGB)
    ensures f.Ka.IsZero() ==> c == Black
    ensures !f.Ka.IsZero() ==> c == f.Ka.Mul(radiance)
    ensures radiance.IsZero() ==> c.IsZero()
  {
    if !f.Ka.IsZero() then Black.Add(f.Ka.Mul(radiance)) else Black
  }

  // ------------------------------------------------------- shadow geometry

  /** The shadow ray towards a light: from the hit point along `dir`,
      tagged with the pixel, origin pushed off the surface along the
      geometric normal. */
  function ShadowRay(isect: Intersection, dir: Vec3): (r: Ray)
    ensures r.dir == dir
    ensures r.pixX == Some(isect.pixX) && r.pixY == Some(isect.pixY)
    ensures r.faceId.None? && r.propagatingEta.None? && r.throughput.None? && r.invDir.None?
    ensures dir.Dot(isect.gn) >= 0.0 ==> r.o == isect.p.Add(isect.gn.Scale(EPSILON))
    ensures dir.Dot(isect.gn) < 0.0 ==> r.o == isect.p.Sub(isect.gn.Scale(EPSILON))
    ensures r.o.Sub(isect.p).Dot(dir) >= 0.0
  {
    Create(isect.p, dir).(pixX := Some(isect.pixX), pixY := Some(isect.pixY)).AdjustOrigin(isect.gn)
  }

  function PathTo(pl: Platform, isect: Intersection, lpos: Vec3): (path: LightPath)
    ensures path.dir == pl.normalize(lpos.Sub(isect.p))
    ensures path.distance == Norm(pl, lpos.Sub(isect.p))
    ensures path.cos == path.dir.Dot(isect.sn)
    ensures path.shadow == ShadowRay(isect, path.dir)
  {
    var toLight := isect.p.ToPoint(lpos);
    var distance := Norm(pl, toLight);
    var dir := pl.normalize(toLight);
    LightPath(dir, distance, dir.Dot(isect.sn), ShadowRay(isect, dir))
  }

  /** The shadow query `visibility(shadow, Ldistance - EPSILON)`. */
  predicate Unoccluded(sc: Scene, path: LightPath) {
    sc.visible(path.shadow, path.distance - EPSILON)
  }

  /** The tail shared by point and area lights: radiance `L` arriving from
      `lpos` contributes `L·Kd·cosL` if the light is in front of the shading
      normal and the shadow query succeeds, and black otherwise. */
  function Illuminate(sc: Scene, pl: Platform, isect: Intersection, f: BRDF, L: RGB, lpos: Vec3): (c: RGB)
    ensures var path := PathTo(pl, isect, lpos);
            c == (if path.cos > 0.0 && Unoccluded(sc, path) then L.Mul(f.Kd).Scale(path.cos) else Black)
    ensures L.IsZero() ==> c == Black
  {
    var path := PathTo(pl, isect, lpos);
    if path.cos > 0.0 then
      if sc.visible(path.shadow, path.distance - EPSILON) then L.Mul(f.Kd).Scale(path.cos) else Black
    else Black
  }

  // ------------------------------------------------------------------ point

  /** `direct_PointLight`. */
  function DirectPoint(sc: Scene, pl: Platform, isect: Intersection, f: BRDF, l: Light): (c: RGB)
    requires l.Point?
    ensures f.Kd.IsZero() ==> c == Black
    ensures PathTo(pl, isect, l.position).cos <= 0.0 ==> c == Black
    ensures !Unoccluded(sc, PathTo(pl, isect, l.position)) ==> c == Black
    ensures !f.Kd.IsZero() && PathTo(pl, isect, l.position).cos > 0.0 && Unoccluded(sc, PathTo(pl, isect, l.position))
            ==> c == l.intensity.Mul(f.Kd).Scale(PathTo(pl, isect, l.position).cos)
  {
    if !f.Kd.IsZero() then
      var s := PointSample(l);
      Illuminate(sc, pl, isect, f, s.radiance, s.pos.GetOr(pl.unsetPoint))
    else Black
  }

  // ------------------------------------------------------------------- area

  /** `direct_AreaLight` with random pair `r`.  The light's `Sample_L` never
      writes the position, so the geometry is computed from
      `pl.unsetPoint`; the pdf is written only when Kd is non-zero. */
  function DirectArea(sc: Scene, pl: Platform, isect: Intersection, f: BRDF, a: AreaLight, r: (real, real)): (t: AreaTerm)
    ensures t.color == Black
    ensures t.pdf == (if f.Kd.IsZero() then None else Some(a.pdf))
  {
    if !f.Kd.IsZero() then
      var s := SampleLPdf(a, r, None);
      AreaTerm(Illuminate(sc, pl, isect, f, s.radiance, s.pos.GetOr(pl.unsetPoint)), Some(s.pdf))
    else AreaTerm(Black, None)
  }

  /** `color / pdf`, determinate only for a written, non-zero pdf. */
  function DivPdf(c: RGB, pdf: Option<real>): (d: Option<RGB>)
    ensures d.Some? <==> pdf.Some? && pdf.value != 0.0
    ensures d.Some? ==> d.value.Scale(pdf.value) == c
  {
    if pdf.Some? && pdf.value != 0.0 then
      var q := c.Div(pdf.value);
      assert q.Scale(pdf.value) == c;
      Some(q)
    else None
  }

  // --------------------------------------------------------- per-light term

  /** One light's contribution as both estimators add it: the ambient and
      point rules as they are, an area light's colour divided by its pdf,
      with a fresh random pair drawn for the area light. */
  function LightTerm(sc: Scene, pl: Platform, rng: nat -> real, isect: Intersection, f: BRDF, l: Light, k: nat): (e: Estimate)
    ensures e.next == k + (if l.Area? then 2 else 0)
    ensures !l.Area? ==> e.color.Some?
    ensures l.Ambient? ==> e.color == Some(DirectAmbient(l.radiance, f))
    ensures l.Point? ==> e.color == Some(DirectPoint(sc, pl, isect, f, l))
    ensures l.Area? ==> (e.color.Some? <==> !f.Kd.IsZero() && l.emitter.pdf != 0.0)
    ensures l.Area? && e.color.Some? ==> e.color.value == Black
  {
    match l
    case Ambient(radiance) => Estimate(Some(DirectAmbient(AmbientRadiance(l), f)), k)
    case Point(_, _) => Estimate(Some(DirectPoint(sc, pl, isect, f, l)), k)
    case Area(a) =>
      var t := DirectArea(sc, pl, isect, f, a, (rng(k), rng(k + 1)));
      var d := DivPdf(t.color, t.pdf);
      assert d.Some? ==> d.value == Black by {
        if d.Some? {
          assert d.value.Scale(t.pdf.value) == Black;
        }
      }
      Estimate(d, k + 2)
  }

  // ------------------------------------------------------------ ALL_LIGHTS

  /** The ALL_LIGHTS loop after its first `m` iterations. */
  function AllPrefix(sc: Scene, pl: Platform, rng: nat -> real, isect: Intersection, f: BRDF, k: nat, m: nat): (e: Estimate)
    requires m <= |sc.lights|
    ensures e.next >= k
  {
    if m == 0 then Estimate(Some(Black), k)
    else
      var prev := AllPrefix(sc, pl, rng, isect, f, k, m - 1);
      var t := LightTerm(sc, pl, rng, isect, f, sc.lights[m - 1], prev.next);
      Estimate(OptAdd(prev.color, t.color), t.next)
  }

  /** `directLighting_ALL`. */
  function DirectAll(sc: Scene, pl: Platform, rng: nat -> real, isect: Intersection, f: BRDF, k: nat): (e: Estimate)
    ensures |sc.lights| == 0 ==> e == Estimate(Some(Black), k)
    ensures e.next == k + 2 * AreaCount(sc.lights)
  {
    AllCursor(sc, pl, rng, isect, f, k, |sc.lights|);
    assert sc.lights[..|sc.lights|] == sc.lights;
    AllPrefix(sc, pl, rng, isect, f, k, |sc.lights|)
  }

  /** The random pair of light `i` sits after two numbers for every area
      light before it. */
  lemma {:induction false} AllCursor(sc: Scene, pl: Platform, rng: nat -> real, isect: Intersection, f: BRDF, k: nat, m: nat)
    requires m <= |sc.lights|
    ensures AllPrefix(sc, pl, rng, isect, f, k, m).next == k + 2 * AreaCount(sc.lights[..m])
  {
    if m > 0 {
      AllCursor(sc, pl, rng, isect, f, k, m - 1);
      assert sc.lights[..m][..m - 1] == sc.lights[..m - 1];
    }
  }

  /** Reference sum: each light's term evaluated with the random pair at
      its own closed-form cursor, added in list order. */
  function TermSum(sc: Scene, pl: Platform, rng: nat -> real, isect: Intersection, f: BRDF, k: nat, m: nat): Option<RGB>
    requires m <= |sc.lights|
  {
    if m == 0 then Some(Black)
    else
      var cursor := k + 2 * AreaCount(sc.lights[..m - 1]);
      OptAdd(TermSum(sc, pl, rng, isect, f, k, m - 1), LightTerm(sc, pl, rng, isect, f, sc.lights[m - 1], cursor).color)
  }

  /** ALL_LIGHTS is the in-order sum of the per-light terms. */
  lemma {:induction false} AllIsTermSum(sc: Scene, pl: Platform, rng: nat -> real, isect: Intersection, f: BRDF, k: nat, m: nat)
    requires m <= |sc.lights|
    ensures AllPrefix(sc, pl, rng, isect, f, k, m).color == TermSum(sc, pl, rng, isect, f, k, m)
  {
    if m > 0 {
      AllIsTermSum(sc, pl, rng, isect, f, k, m - 1);
      AllCursor(sc, pl, rng, isect, f, k, m - 1);
    }
  }

  // ----------------------------------------------------------- UNIFORM_ONE

  /** C++ float-to-int conversion: truncation toward zero. */
  function Trunc(x: real): (i: int)
    ensures x >= 0.0 ==> i as real <= x < i as real + 1.0
    ensures x < 0.0 ==> i as real - 1.0 < x <= i as real
  {
    if x >= 0.0 then x.Floor else -((-x).Floor)
  }

  /** `l_ndx = u * numLights`, clamped to `numLights - 1`. */
  function LightIndex(u: real, n: int): (i: int)
    ensures n > 0 && 0.0 <= u <= 1.0 ==> 0 <= i < n
    ensures i <= n - 1
  {
    var i := Trunc(u * n as real);
    if i >= n then n - 1 else i
  }

  /** UNIFORM_ONE once light `i` is chosen: its term scaled by the light
      count. */
  function OneWithIndex(sc: Scene, pl: Platform, rng: nat -> real, isect: Intersection, f: BRDF, i: nat, k: nat): (e: Estimate)
    requires i < |sc.lights|
    ensures e.color == OptScale(LightTerm(sc, pl, rng, isect, f, sc.lights[i], k).color, |sc.lights| as real)
    ensures e.next == LightTerm(sc, pl, rng, isect, f, sc.lights[i], k).next
  {
    var t := LightTerm(sc, pl, rng, isect, f, sc.lights[i], k);
    Estimate(OptScale(t.color, |sc.lights| as real), t.next)
  }

  /** `directLighting_ONE`: one number picks the light, an area light then
      draws its own pair.  An index outside the list (an empty list, or a
      negative draw) has no determinate result. */
  function DirectOne(sc: Scene, pl: Platform, rng: nat -> real, isect: Intersection, f: BRDF, k: nat): (e: Estimate)
    ensures |sc.lights| > 0 && 0.0 <= rng(k) <= 1.0 ==>
              var i := LightIndex(rng(k), |sc.lights|);
              0 <= i < |sc.lights| && e == OneWithIndex(sc, pl, rng, isect, f, i, k + 1)
    ensures |sc.lights| == 0 ==> e.color.None?
    ensures e.next > k
  {
    var n := |sc.lights|;
    var i := LightIndex(rng(k), n);
    if 0 <= i < n then OneWithIndex(sc, pl, rng, isect, f, i, k + 1)
    else Estimate(None, k + 1)
  }

  /** `directLighting`: dispatch on the sampling mode; any other mode adds
      nothing and draws nothing. */
  function Direct(sc: Scene, pl: Platform, rng: nat -> real, isect: Intersection, f: BRDF, mode: SampleMode, k: nat): (e: Estimate)
    ensures mode.AllLights? ==> e == DirectAll(sc, pl, rng, isect, f, k)
    ensures mode.UniformOne? ==> e == DirectOne(sc, pl, rng, isect, f, k)
    ensures mode.OtherMode? ==> e == Estimate(Some(Black), k)
    ensures e.next >= k
  {
    match mode
    case AllLights => DirectAll(sc, pl, rng, isect, f, k)
    case UniformOne => DirectOne(sc, pl, rng, isect, f, k)
    case OtherMode => Estimate(Some(Black), k)
  }
}
