/** Properties of the direct-lighting estimator that relate several calls:
    which collaborator queries each light type depends on, the uniform
    light choice, and the unbiasedness of UNIFORM_ONE against ALL_LIGHTS. */
module DirectLightingProperties {
  import opened Options
  import opened Vectors
  import opened Colors
  import opened Rays
  import opened Lights
  import opened Scenes
  import opened DirectLighting

  /** An ambient light's term is the same in scenes that trace and test
      visibility differently: it never queries either. */
  lemma AmbientIgnoresScene(sc: Scene, sc': Scene, pl: Platform, rng: nat -> real,
                            isect: Intersection, f: BRDF, l: Light, k: nat)
    requires l.Ambient?
    ensures LightTerm(sc, pl, rng, isect, f, l, k) == LightTerm(sc', pl, rng, isect, f, l, k)
    ensures LightTerm(sc, pl, rng, isect, f, l, k).color == Some(if f.Ka.IsZero() then Black else f.Ka.Mul(l.radiance))
  {
  }

  /** A point light consults the scene through one shadow query only: two
      scenes that answer that query alike give the same contribution. */
  lemma PointVisibilityIsOneQuery(sc: Scene, sc': Scene, pl: Platform, isect: Intersection, f: BRDF, l: Light)
    requires l.Point?
    requires var path := PathTo(pl, isect, l.position);
             sc.visible(path.shadow, path.distance - EPSILON) == sc'.visible(path.shadow, path.distance - EPSILON)
    ensures DirectPoint(sc, pl, isect, f, l) == DirectPoint(sc', pl, isect, f, l)
  {
  }

  /** The point-light shadow query: a ray from the hit point towards the
      light, pixel-tagged, origin offset along the geometric normal to the
      side the ray heads to, cut off EPSILON short of the light. */
  lemma PointShadowQuery(pl: Platform, isect: Intersection, l: Light)
    requires l.Point?
    ensures var path := PathTo(pl, isect, l.position);
            var toLight := l.position.Sub(isect.p);
            && path.shadow.dir == pl.normalize(toLight)
            && path.distance - EPSILON == Norm(pl, toLight) - EPSILON
            && path.shadow.pixX == Some(isect.pixX) && path.shadow.pixY == Some(isect.pixY)
            && (path.shadow.o == isect.p.Add(isect.gn.Scale(EPSILON)) || path.shadow.o == isect.p.Sub(isect.gn.Scale(EPSILON)))
            && path.shadow.o.Sub(isect.p).Dot(path.shadow.dir) >= 0.0
  {
  }

  /** Area lights never add radiance, whatever the random pair, the
      visibility answer or the indeterminate sampled position. */
  lemma AreaTermIsBlack(sc: Scene, pl: Platform, rng: nat -> real, isect: Intersection, f: BRDF, l: Light, k: nat)
    requires l.Area? && l.emitter.pdf > 0.0
    ensures var e := LightTerm(sc, pl, rng, isect, f, l, k);
            && (f.Kd.IsZero() <==> e.color.None?)
            && (!f.Kd.IsZero() ==> e.color == Some(Black))
  {
  }

  /** The concrete diffuse scenario: Kd = 0.8 grey at the origin, shading
      normal +Y, a unit point light one unit above.  Unoccluded it gives
      0.8 grey; occluded, black. */
  lemma DiffuseScenario(sc: Scene, pl: Platform, isect: Intersection, l: Light)
    requires isect.p == Origin && isect.sn == Vec3(0.0, 1.0, 0.0)
    requires isect.f.Kd == RGB(0.8, 0.8, 0.8)
    requires l == Point(RGB(1.0, 1.0, 1.0), Vec3(0.0, 1.0, 0.0))
    requires pl.normalize(Vec3(0.0, 1.0, 0.0)) == Vec3(0.0, 1.0, 0.0)
    ensures DirectPoint(sc, pl, isect, isect.f, l)
            == if Unoccluded(sc, PathTo(pl, isect, l.position)) then RGB(0.8, 0.8, 0.8) else Black
  {
    OverheadLightCosine(pl, isect, l);
    HeadOnDiffuse(sc, pl, isect, l);
  }

  lemma HeadOnDiffuse(sc: Scene, pl: Platform, isect: Intersection, l: Light)
    requires isect.f.Kd == RGB(0.8, 0.8, 0.8)
    requires l == Point(RGB(1.0, 1.0, 1.0), Vec3(0.0, 1.0, 0.0))
    requires PathTo(pl, isect, l.position).cos == 1.0
    ensures DirectPoint(sc, pl, isect, isect.f, l)
            == if Unoccluded(sc, PathTo(pl, isect, l.position)) then RGB(0.8, 0.8, 0.8) else Black
  {
    HeadOnPoint(sc, pl, isect, isect.f, l);
  }

  /** A point light straight along the shading normal (cosine 1) adds its
      intensity times Kd when unoccluded, black otherwise. */
  lemma HeadOnPoint(sc: Scene, pl: Platform, isect: Intersection, f: BRDF, l: Light)
    requires l.Point? && !f.Kd.IsZero() && PathTo(pl, isect, l.position).cos == 1.0
    ensures DirectPoint(sc, pl, isect, f, l)
            == if Unoccluded(sc, PathTo(pl, isect, l.position)) then l.intensity.Mul(f.Kd) else Black
  {
    ScaleOne(l.intensity.Mul(f.Kd));
  }

  lemma OverheadLightCosine(pl: Platform, isect: Intersection, l: Light)
    requires isect.p == Origin && isect.sn == Vec3(0.0, 1.0, 0.0)
    requires l == Point(RGB(1.0, 1.0, 1.0), Vec3(0.0, 1.0, 0.0))
    requires pl.normalize(Vec3(0.0, 1.0, 0.0)) == Vec3(0.0, 1.0, 0.0)
    ensures PathTo(pl, isect, l.position).cos == 1.0
  {
    assert l.position.Sub(isect.p) == Vec3(0.0, 1.0, 0.0);
  }

  /** The light choice is uniform: for a draw in [0, 1), light `j` is picked
      exactly on the interval [j/n, (j+1)/n), a share 1/n of the draws. */
  lemma LightIndexBucket(u: real, n: nat, j: nat)
    requires 0.0 <= u < 1.0 && j < n
    ensures LightIndex(u, n) == j <==> j as real <= u * n as real < j as real + 1.0
  {
    assert u * n as real < n as real;
    var i := Trunc(u * n as real);
    assert i < n;
    assert LightIndex(u, n) == i;
    if j as real <= u * n as real < j as real + 1.0 {
      assert i == j;
    }
  }

  /** The sum over all n choices of the UNIFORM_ONE estimate made once
      light `j` is chosen. */
  function SumOverChoices(sc: Scene, pl: Platform, rng: nat -> real, isect: Intersection, f: BRDF, k: nat, m: nat): RGB
    requires m <= |sc.lights|
  {
    if m == 0 then Black
    else SumOverChoices(sc, pl, rng, isect, f, k, m - 1).Add(OneWithIndex(sc, pl, rng, isect, f, m - 1, k).color.GetOr(Black))
  }

  /** Unbiasedness of UNIFORM_ONE: for a list of ambient and point lights,
      the average of the UNIFORM_ONE estimate over the n equally likely
      choices is the ALL_LIGHTS sum. */
  lemma OneIsUnbiased(sc: Scene, pl: Platform, rng: nat -> real, isect: Intersection, f: BRDF, k: nat, k': nat)
    requires |sc.lights| > 0 && AreaCount(sc.lights) == 0
    ensures DirectAll(sc, pl, rng, isect, f, k).color
            == Some(SumOverChoices(sc, pl, rng, isect, f, k', |sc.lights|).Scale(1.0 / |sc.lights| as real))
  {
    var n := |sc.lights|;
    AllIsTermSum(sc, pl, rng, isect, f, k, n);
    ChoicesAreScaledTerms(sc, pl, rng, isect, f, k, k', n);
    ScaleCancels(TermSum(sc, pl, rng, isect, f, k, n).value, n);
  }

  lemma ScaleCancels(c: RGB, n: nat)
    requires n > 0
    ensures c.Scale(n as real).Scale(1.0 / n as real) == c
  {
    ScaleScale(c, n as real, 1.0 / n as real);
    assert n as real * (1.0 / n as real) == 1.0;
  }

  lemma {:induction false} ChoicesAreScaledTerms(sc: Scene, pl: Platform, rng: nat -> real, isect: Intersection, f: BRDF,
                                                 k: nat, k': nat, m: nat)
    requires m <= |sc.lights| && AreaCount(sc.lights) == 0
    ensures TermSum(sc, pl, rng, isect, f, k, m).Some?
    ensures SumOverChoices(sc, pl, rng, isect, f, k', m)
            == TermSum(sc, pl, rng, isect, f, k, m).value.Scale(|sc.lights| as real)
  {
    if m > 0 {
      ChoicesAreScaledTerms(sc, pl, rng, isect, f, k, k', m - 1);
      var l := sc.lights[m - 1];
      assert !l.Area?;
      var cursor := k + 2 * AreaCount(sc.lights[..m - 1]);
      var t := LightTerm(sc, pl, rng, isect, f, l, cursor).color.value;
      assert LightTerm(sc, pl, rng, isect, f, l, k').color.value == t;
      ScaleDistributes(TermSum(sc, pl, rng, isect, f, k, m - 1).value, t, |sc.lights| as real);
    }
  }
}
