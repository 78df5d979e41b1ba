/** Properties of the recursive shader that span several calls: how a shade
    call unfolds into the shade calls two levels down, the specular gates,
    the bound on traced rays, when the result is determinate, the
    total-internal-reflection condition, and the TIR direction defect. */
module ShadingProperties {
  import opened Options
  import opened Vectors
  import opened Colors
  import opened Rays
  import opened Lights
  import opened Scenes
  import opened DirectLighting
  import opened Shading

  /** A non-emitting hit at `depth` is the Ks-weighted shade of the traced
      mirror ray at `depth + 2` (when Ks is non-zero and depth < 4), plus the
      Kt-weighted shade of the traced transmission ray at `depth + 2` (under
      the same gate on Kt), plus exactly one UNIFORM_ONE direct-lighting
      estimate drawn after both continuations, accumulated onto black in that
      order; the rays traced are the gated-in continuation rays followed by
      their own traces. */
  lemma ShadeUnfoldsTwoLevels(sh: Shader, isect: Intersection, depth: int, k: nat)
    requires !isect.isLight
    ensures
      var f := isect.f;
      var gR := ReflectGate(isect, depth);
      var gT := TransmitGate(isect, depth);
      var rRay := ReflectionRay(isect);
      var tRay := ShaderTransmissionRay(sh, isect);
      var rs := Shade(sh, sh.scene.trace(rRay), depth + 2, k);
      var k1 := if gR then rs.next else k;
      var ts := Shade(sh, sh.scene.trace(tRay), depth + 2, k1);
      var k2 := if gT then ts.next else k1;
      var d := DirectOne(sh.scene, sh.platform, sh.rng, isect, f, k2);
      var r := Shade(sh, Some(isect), depth, k);
      && r.traced == (if gR then [rRay] + rs.traced else []) + (if gT then [tRay] + ts.traced else [])
      && r.color == OptAdd(OptAdd(OptAdd(Some(Black), if gR then OptMul(f.Ks, rs.color) else Some(Black)),
                                         if gT then OptMul(f.Kt, ts.color) else Some(Black)),
                                  d.color)
      && r.next == d.next
  {
    var gR, gT := ReflectGate(isect, depth), TransmitGate(isect, depth);
    UnfoldTraced(sh, isect, depth, k, gR, gT);
    UnfoldColor(sh, isect, depth, k, gR, gT);
    UnfoldNext(sh, isect, depth, k, gR, gT);
  }

  /** The two-level unfolding with the values of both gates fixed in
      advance, one component of the result at a time.  The three lemmas share
      their bindings and their proof; they are stated separately because the
      solver handles each component quickly but not the conjunction. */
  lemma UnfoldTraced(sh: Shader, isect: Intersection, depth: int, k: nat, gR: bool, gT: bool)
    requires !isect.isLight && ReflectGate(isect, depth) == gR && TransmitGate(isect, depth) == gT
    ensures
      var f := isect.f;
      var rRay := ReflectionRay(isect);
      var tRay := ShaderTransmissionRay(sh, isect);
      var rs := Shade(sh, sh.scene.trace(rRay), depth + 2, k);
      var k1 := if gR then rs.next else k;
      var ts := Shade(sh, sh.scene.trace(tRay), depth + 2, k1);
      var k2 := if gT then ts.next else k1;
      var d := DirectOne(sh.scene, sh.platform, sh.rng, isect, f, k2);
      var r := Shade(sh, Some(isect), depth, k);
      r.traced == (if gR then [rRay] + rs.traced else []) + (if gT then [tRay] + ts.traced else [])
  {
    ShadeUnfolds(sh, isect, depth, k);
    var rs := Shade(sh, sh.scene.trace(ReflectionRay(isect)), depth + 2, k);
    var k1 := if gR then rs.next else k;
    if gR {
      ReflectionUnfolds(sh, isect, depth + 1, k);
    }
    if gT {
      TransmissionUnfolds(sh, isect, depth + 1, k1);
    }
  }

  lemma UnfoldNext(sh: Shader, isect: Intersection, depth: int, k: nat, gR: bool, gT: bool)
    requires !isect.isLight && ReflectGate(isect, depth) == gR && TransmitGate(isect, depth) == gT
    ensures
      var f := isect.f;
      var rRay := ReflectionRay(isect);
      var tRay := ShaderTransmissionRay(sh, isect);
      var rs := Shade(sh, sh.scene.trace(rRay), depth + 2, k);
      var k1 := if gR then rs.next else k;
      var ts := Shade(sh, sh.scene.trace(tRay), depth + 2, k1);
      var k2 := if gT then ts.next else k1;
      var d := DirectOne(sh.scene, sh.platform, sh.rng, isect, f, k2);
      var r := Shade(sh, Some(isect), depth, k);
      r.next == d.next
  {
    ShadeUnfolds(sh, isect, depth, k);
    var rs := Shade(sh, sh.scene.trace(ReflectionRay(isect)), depth + 2, k);
    var k1 := if gR then rs.next else k;
    if gR {
      ReflectionUnfolds(sh, isect, depth + 1, k);
    }
    if gT {
      TransmissionUnfolds(sh, isect, depth + 1, k1);
    }
  }

  lemma UnfoldColor(sh: Shader, isect: Intersection, depth: int, k: nat, gR: bool, gT: bool)
    requires !isect.isLight && ReflectGate(isect, depth) == gR && TransmitGate(isect, depth) == gT
    ensures
      var f := isect.f;
      var rRay := ReflectionRay(isect);
      var tRay := ShaderTransmissionRay(sh, isect);
      var rs := Shade(sh, sh.scene.trace(rRay), depth + 2, k);
      var k1 := if gR then rs.next else k;
      var ts := Shade(sh, sh.scene.trace(tRay), depth + 2, k1);
      var k2 := if gT then ts.next else k1;
      var d := DirectOne(sh.scene, sh.platform, sh.rng, isect, f, k2);
      var r := Shade(sh, Some(isect), depth, k);
      r.color == OptAdd(OptAdd(OptAdd(Some(Black), if gR then OptMul(f.Ks, rs.color) else Some(Black)),
                                      if gT then OptMul(f.Kt, ts.color) else Some(Black)),
                               d.color)
  {
    ShadeUnfolds(sh, isect, depth, k);
    var rs := Shade(sh, sh.scene.trace(ReflectionRay(isect)), depth + 2, k);
    var k1 := if gR then rs.next else k;
    if gR {
      ReflectionUnfolds(sh, isect, depth + 1, k);
    }
    if gT {
      TransmissionUnfolds(sh, isect, depth + 1, k1);
    }
  }

  /** One level of `shade` on a non-emitting hit. */
  lemma ShadeUnfolds(sh: Shader, isect: Intersection, depth: int, k: nat)
    requires !isect.isLight
    ensures var f := isect.f;
            var refl := if ReflectGate(isect, depth) then SpecularReflection(sh, isect, depth + 1, k)
                        else Shaded(Some(Black), [], k);
            var trans := if TransmitGate(isect, depth) then SpecularTransmission(sh, isect, depth + 1, refl.next)
                         else Shaded(Some(Black), [], refl.next);
            var direct := DirectOne(sh.scene, sh.platform, sh.rng, isect, f, trans.next);
            Shade(sh, Some(isect), depth, k)
              == Shaded(OptAdd(OptAdd(OptAdd(Some(Black), refl.color), trans.color), direct.color),
                        refl.traced + trans.traced, direct.next)
  {
  }

  lemma ReflectionUnfolds(sh: Shader, isect: Intersection, depth: int, k: nat)
    requires depth <= MAX_DEPTH
    ensures var rs := Shade(sh, sh.scene.trace(ReflectionRay(isect)), depth + 1, k);
            SpecularReflection(sh, isect, depth, k) == Shaded(OptMul(isect.f.Ks, rs.color), [ReflectionRay(isect)] + rs.traced, rs.next)
  {
  }

  lemma TransmissionUnfolds(sh: Shader, isect: Intersection, depth: int, k: nat)
    requires depth <= MAX_DEPTH
    ensures var tRay := ShaderTransmissionRay(sh, isect);
            var ts := Shade(sh, sh.scene.trace(tRay), depth + 1, k);
            SpecularTransmission(sh, isect, depth, k) == Shaded(OptMul(isect.f.Kt, ts.color), [tRay] + ts.traced, ts.next)
  {
  }

  /** With no specular gate open (depth at the limit, or Ks and Kt both
      zero) shade traces nothing and returns the direct-lighting estimate
      alone. */
  lemma ShadeWithoutSpecular(sh: Shader, isect: Intersection, depth: int, k: nat)
    requires !isect.isLight
    requires depth >= MAX_DEPTH || (isect.f.Ks.IsZero() && isect.f.Kt.IsZero())
    ensures var r := Shade(sh, Some(isect), depth, k);
            var d := DirectOne(sh.scene, sh.platform, sh.rng, isect, isect.f, k);
            r.traced == [] && r.color == d.color && r.next == d.next
  {
    ShadeUnfoldsTwoLevels(sh, isect, depth, k);
    var d := DirectOne(sh.scene, sh.platform, sh.rng, isect, isect.f, k);
    if d.color.Some? {
      AddBlack(d.color.value);
      AddBlack(Black);
    }
  }

  /** From a primary hit at depth 0 at most six rays are traced: two
      continuations at depth 0, two more for each at depth 2, none at 4. */
  lemma AtMostSixTraces(sh: Shader, hit: Option<Intersection>, k: nat)
    ensures |Shade(sh, hit, 0, k).traced| <= 6
    ensures forall h: Option<Intersection>, k': nat :: |Shade(sh, h, 2, k').traced| <= 2
    ensures forall h: Option<Intersection>, k': nat :: Shade(sh, h, 4, k').traced == []
  {
    assert TraceBound(4) == 0;
    assert TraceBound(2) == 2;
    assert TraceBound(0) == 6;
  }

  /** The rays a non-emitting hit traces when both gates are open: the
      mirror ray and its subtree, then the transmission ray and its subtree. */
  lemma TracedWhenSpecular(sh: Shader, isect: Intersection, depth: int, k: nat)
    requires !isect.isLight && !isect.f.Ks.IsZero() && !isect.f.Kt.IsZero() && depth < MAX_DEPTH
    ensures var rRay := ReflectionRay(isect);
            var tRay := ShaderTransmissionRay(sh, isect);
            var rs := Shade(sh, sh.scene.trace(rRay), depth + 2, k);
            var ts := Shade(sh, sh.scene.trace(tRay), depth + 2, rs.next);
            Shade(sh, Some(isect), depth, k).traced == [rRay] + rs.traced + [tRay] + ts.traced
  {
    ShadeUnfoldsTwoLevels(sh, isect, depth, k);
  }

  /** Every hit is an ordinary surface whose Ks and Kt are both non-zero. */
  ghost predicate AlwaysSpecular(sh: Shader) {
    forall r: Ray :: SpecularHit(sh.scene.trace(r))
  }

  predicate SpecularHit(hit: Option<Intersection>) {
    hit.Some? && !hit.value.isLight && !hit.value.f.Ks.IsZero() && !hit.value.f.Kt.IsZero()
  }

  /** The trace bound is reached: in a scene of specular surfaces only,
      shade traces exactly `TraceBound(depth)` rays (six from depth 0). */
  lemma {:induction false} TraceBoundReached(sh: Shader, hit: Option<Intersection>, depth: int, k: nat)
    requires AlwaysSpecular(sh) && SpecularHit(hit)
    ensures |Shade(sh, hit, depth, k).traced| == TraceBound(depth)
    decreases Budget(depth), 1
  {
    SurfaceTraceBound(sh, hit.value, depth, k);
  }

  lemma {:induction false} SurfaceTraceBound(sh: Shader, isect: Intersection, depth: int, k: nat)
    requires AlwaysSpecular(sh) && SpecularHit(Some(isect))
    ensures |Shade(sh, Some(isect), depth, k).traced| == TraceBound(depth)
    decreases Budget(depth), 0
  {
    if depth < MAX_DEPTH {
      ContinuationBound(sh, sh.scene.trace(ReflectionRay(isect)), depth + 2);
      ContinuationBound(sh, sh.scene.trace(ShaderTransmissionRay(sh, isect)), depth + 2);
      BoundParts(sh, isect, depth, k);
    } else {
      ShadeWithoutSpecular(sh, isect, depth, k);
    }
  }

  lemma {:induction false} ContinuationBound(sh: Shader, hit: Option<Intersection>, depth: int)
    requires AlwaysSpecular(sh) && SpecularHit(hit)
    ensures BoundFrom(sh, hit, depth)
    decreases Budget(depth), 2
  {
    forall k: nat ensures |Shade(sh, hit, depth, k).traced| == TraceBound(depth) {
      TraceBoundReached(sh, hit, depth, k);
    }
  }

  /** Shading `hit` at `depth` traces exactly the bound from every cursor. */
  ghost predicate BoundFrom(sh: Shader, hit: Option<Intersection>, depth: int) {
    forall k: nat :: |Shade(sh, hit, depth, k).traced| == TraceBound(depth)
  }

  /** With both gates open, a hit reaches the bound when both continuations
      reach theirs, whatever the cursors. */
  lemma BoundParts(sh: Shader, isect: Intersection, depth: int, k: nat)
    requires SpecularHit(Some(isect)) && depth < MAX_DEPTH
    requires BoundFrom(sh, sh.scene.trace(ReflectionRay(isect)), depth + 2)
    requires BoundFrom(sh, sh.scene.trace(ShaderTransmissionRay(sh, isect)), depth + 2)
    ensures |Shade(sh, Some(isect), depth, k).traced| == TraceBound(depth)
  {
    TracedWhenSpecular(sh, isect, depth, k);
  }

  /** Scene conditions under which shading yields a determinate colour: a
      non-empty light list without area lights, and draws in [0, 1]. */
  ghost predicate Determinate(sh: Shader) {
    && |sh.scene.lights| > 0
    && AreaCount(sh.scene.lights) == 0
    && forall i: nat :: 0.0 <= sh.rng(i) <= 1.0
  }

  /** Under those conditions every shade result is a determinate colour. */
  lemma {:induction false} ShadeIsDeterminate(sh: Shader, hit: Option<Intersection>, depth: int, k: nat)
    requires Determinate(sh)
    ensures Shade(sh, hit, depth, k).color.Some?
    decreases Budget(depth), 1
  {
    if hit.Some? && !hit.value.isLight {
      SurfaceIsDeterminate(sh, hit.value, depth, k);
    }
  }

  lemma {:induction false} SurfaceIsDeterminate(sh: Shader, isect: Intersection, depth: int, k: nat)
    requires Determinate(sh) && !isect.isLight
    ensures Shade(sh, Some(isect), depth, k).color.Some?
    decreases Budget(depth), 0
  {
    var gated := depth < MAX_DEPTH;
    var rHit := sh.scene.trace(ReflectionRay(isect));
    var tHit := sh.scene.trace(ShaderTransmissionRay(sh, isect));
    if gated {
      ContinuationDeterminate(sh, rHit, depth + 2);
      ContinuationDeterminate(sh, tHit, depth + 2);
    }
    DirectDeterminate(sh, isect);
    DeterminateParts(sh, isect, depth, k);
  }

  lemma {:induction false} ContinuationDeterminate(sh: Shader, hit: Option<Intersection>, depth: int)
    requires Determinate(sh)
    ensures DeterminateFrom(sh, hit, depth)
    decreases Budget(depth), 2
  {
    forall k: nat ensures Shade(sh, hit, depth, k).color.Some? {
      ShadeIsDeterminate(sh, hit, depth, k);
    }
  }

  /** Shading `hit` at `depth` is determinate from every cursor. */
  ghost predicate DeterminateFrom(sh: Shader, hit: Option<Intersection>, depth: int) {
    forall k: nat :: Shade(sh, hit, depth, k).color.Some?
  }

  /** A non-emitting hit's colour is determinate, whatever the cursors,
      when the continuations' colours and the direct estimate are. */
  lemma DeterminateParts(sh: Shader, isect: Intersection, depth: int, k: nat)
    requires !isect.isLight
    requires depth < MAX_DEPTH ==> DeterminateFrom(sh, sh.scene.trace(ReflectionRay(isect)), depth + 2)
    requires depth < MAX_DEPTH ==> DeterminateFrom(sh, sh.scene.trace(ShaderTransmissionRay(sh, isect)), depth + 2)
    requires DirectFrom(sh, isect)
    ensures Shade(sh, Some(isect), depth, k).color.Some?
  {
    ShadeUnfoldsTwoLevels(sh, isect, depth, k);
  }

  /** The UNIFORM_ONE estimate at `isect` is determinate from every cursor. */
  ghost predicate DirectFrom(sh: Shader, isect: Intersection) {
    forall k: nat :: DirectOne(sh.scene, sh.platform, sh.rng, isect, isect.f, k).color.Some?
  }

  lemma DirectDeterminate(sh: Shader, isect: Intersection)
    requires Determinate(sh)
    ensures DirectFrom(sh, isect)
  {
    forall k: nat ensures DirectOne(sh.scene, sh.platform, sh.rng, isect, isect.f, k).color.Some? {
      OneIsDeterminate(sh, isect, k);
    }
  }

  lemma OneIsDeterminate(sh: Shader, isect: Intersection, k: nat)
    requires Determinate(sh)
    ensures DirectOne(sh.scene, sh.platform, sh.rng, isect, isect.f, k).color.Some?
  {
    var i := LightIndex(sh.rng(k), |sh.scene.lights|);
    assert 0 <= i < |sh.scene.lights|;
    assert !sh.scene.lights[i].Area?;
  }

  // ------------------------------------------------------------------ TIR

  /** With a sound square root and a cosine no smaller than -1, total
      internal reflection is `IOR > 0 ∧ IOR²·(1 - cos²θ) > 1`: the sine
      past the critical angle, stated without the square root. */
  lemma TirWithoutSqrt(pl: Platform, isect: Intersection)
    requires SqrtSound(pl.sqrt)
    requires CosTheta(isect) >= -1.0
    ensures Tir(pl, isect) <==>
              Ior(isect) > 0.0 && Sq(Ior(isect)) * (1.0 - Sq(CosTheta(isect))) > 1.0
  {
    SineSquared(pl, isect);
    TirConditionAt(pl, isect);
    if Tir(pl, isect) {
      TirExceeds(pl, isect);
    } else if Ior(isect) * SinTheta(pl, isect) > 1.0 {
      ExceedsTir(pl, isect);
      assert false;
    }
  }

  lemma TirExceeds(pl: Platform, isect: Intersection)
    requires Tir(pl, isect)
    ensures Ior(isect) * SinTheta(pl, isect) > 1.0
  {
  }

  lemma ExceedsTir(pl: Platform, isect: Intersection)
    requires Ior(isect) * SinTheta(pl, isect) > 1.0
    ensures Tir(pl, isect)
  {
  }

  lemma SineSquared(pl: Platform, isect: Intersection)
    requires SqrtSound(pl.sqrt)
    requires CosTheta(isect) >= -1.0
    ensures SinTheta(pl, isect) >= 0.0 && Sq(SinTheta(pl, isect)) == 1.0 - Sq(CosTheta(isect))
  {
    SquareAtMostOne(CosTheta(isect));
  }

  lemma TirConditionAt(pl: Platform, isect: Intersection)
    requires SinTheta(pl, isect) >= 0.0 && Sq(SinTheta(pl, isect)) == 1.0 - Sq(CosTheta(isect))
    ensures Ior(isect) * SinTheta(pl, isect) > 1.0 <==>
              Ior(isect) > 0.0 && Sq(Ior(isect)) * (1.0 - Sq(CosTheta(isect))) > 1.0
  {
    TirCondition(Ior(isect), SinTheta(pl, isect), CosTheta(isect));
  }

  /** The real-arithmetic core of the condition: for s = sqrt(1 - c²),
      `i·s > 1` exactly when `i > 0` and `i²(1 - c²) > 1`. */
  lemma TirCondition(i: real, s: real, c: real)
    requires s >= 0.0 && Sq(s) == 1.0 - Sq(c)
    ensures i * s > 1.0 <==> i > 0.0 && Sq(i) * (1.0 - Sq(c)) > 1.0
  {
    ProductAboveOne(i, s);
    SquareOfProduct(i, s, c);
  }

  lemma SquareOfProduct(i: real, s: real, c: real)
    requires Sq(s) == 1.0 - Sq(c)
    ensures Sq(i * s) == Sq(i) * (1.0 - Sq(c))
  {
    assert (i * s) * (i * s) == (i * i) * (s * s);
  }

  lemma SquareAtMostOne(c: real)
    requires -1.0 <= c <= 1.0
    ensures Sq(c) <= 1.0
  {
    if c >= 0.0 {
      assert c * c <= c * 1.0;
    } else {
      assert c * c <= (-c) * 1.0;
    }
  }

  lemma ProductAboveOne(i: real, s: real)
    requires s >= 0.0
    ensures i * s > 1.0 <==> i > 0.0 && Sq(i * s) > 1.0
  {
    if i * s > 1.0 {
      SqAboveOne(i * s);
      if i <= 0.0 {
        MulNonPos(i, s);
      }
    }
    if i > 0.0 && Sq(i * s) > 1.0 {
      assert i * s >= 0.0;
      if i * s <= 1.0 {
        SqAtMostOne(i * s);
      }
    }
  }

  lemma SqAboveOne(p: real)
    requires p > 1.0
    ensures Sq(p) > 1.0
  {
    assert p * p > p * 1.0;
  }

  lemma SqAtMostOne(p: real)
    requires 0.0 <= p <= 1.0
    ensures Sq(p) <= 1.0
  {
    assert p * p <= p * 1.0;
  }

  lemma MulNonPos(i: real, s: real)
    requires i <= 0.0 && s >= 0.0
    ensures i * s <= 0.0
  {
    assert (-i) * s >= 0.0;
  }

  // ------------------------------------------------------- TIR direction

  /** As written, a totally internally reflected ray leaves on the far side
      of the surface from the viewer (its normal component is the negated
      one of `wo`), while the corrected ray stays on the viewer's side, as
      the kept incident index says it should. */
  lemma TirDirectionSide(pl: Platform, isect: Intersection)
    requires Tir(pl, isect) && isect.sn.Dot(isect.sn) == 1.0
    ensures isect.sn.Dot(TransmissionRayAsWritten(pl, isect).dir) == -isect.sn.Dot(isect.wo)
    ensures isect.sn.Dot(TransmissionRay(pl, isect).dir) == isect.sn.Dot(isect.wo)
    ensures TransmissionRay(pl, isect).propagatingEta == Some(isect.incidentEta)
  {
    ReflectKeepsNormalComponent(isect.wo, isect.sn);
    DotScale(Reflect(isect.wo, isect.sn), -1.0, isect.sn);
    assert Reflect(isect.wo, isect.sn).Neg().Dot(isect.sn) == -Reflect(isect.wo, isect.sn).Dot(isect.sn);
  }

  /** A concrete case: looking from (0.6, 0.8, 0) at a surface at the origin
      with normal +Y, inside a medium of index 2 over one of index 1. */
  predicate TirExample(isect: Intersection) {
    && isect.p == Origin
    && isect.gn == Vec3(0.0, 1.0, 0.0) && isect.sn == Vec3(0.0, 1.0, 0.0)
    && isect.wo == Vec3(0.6, 0.8, 0.0)
    && isect.incidentEta == 2.0 && isect.f.eta == 1.0
  }

  /** The angle is past the critical one: cos θ = 0.8, sin θ = 0.6, and
      IOR·sin θ = 1.2 > 1. */
  lemma TirExampleIsTir(pl: Platform, isect: Intersection)
    requires TirExample(isect) && pl.sqrt(0.36) == 0.6
    ensures CosTheta(isect) == 0.8 && SinTheta(pl, isect) == 0.6 && Ior(isect) == 2.0
    ensures Tir(pl, isect)
  {
    ExampleCosine(isect);
    ExampleSine(pl, isect);
    assert Ior(isect) == 2.0;
    ExceedsTir(pl, isect);
  }

  lemma ExampleCosine(isect: Intersection)
    requires isect.sn == Vec3(0.0, 1.0, 0.0) && isect.wo == Vec3(0.6, 0.8, 0.0)
    ensures CosTheta(isect) == 0.8
  {
    assert isect.wo.Neg().Neg() == Vec3(0.6, 0.8, 0.0);
  }

  lemma ExampleSine(pl: Platform, isect: Intersection)
    requires CosTheta(isect) == 0.8 && pl.sqrt(0.36) == 0.6
    ensures SinTheta(pl, isect) == 0.6
  {
    assert 1.0 - Sq(CosTheta(isect)) == 0.36;
  }

  /** As written, the ray heads to (0.6, -0.8, 0), below the surface, from
      an origin pushed below it, still tagged with index 2. */
  lemma TirCounterexample(pl: Platform, isect: Intersection)
    requires TirExample(isect) && pl.sqrt(0.36) == 0.6
    ensures var asWritten := TransmissionRayAsWritten(pl, isect);
            && Tir(pl, isect)
            && asWritten.dir == Vec3(0.6, -0.8, 0.0)
            && asWritten.o == Vec3(0.0, -EPSILON, 0.0)
            && asWritten.propagatingEta == Some(2.0)
  {
    TirExampleIsTir(pl, isect);
    ExampleMirrors(isect);
    ExampleOrigin(isect, Vec3(0.6, -0.8, 0.0));
  }

  /** The corrected ray heads to the mirror direction (-0.6, 0.8, 0) from an
      origin above the surface, where index 2 belongs. */
  lemma TirCorrected(pl: Platform, isect: Intersection)
    requires TirExample(isect) && pl.sqrt(0.36) == 0.6
    ensures var corrected := TransmissionRay(pl, isect);
            && corrected.dir == Vec3(-0.6, 0.8, 0.0)
            && corrected.o == Vec3(0.0, EPSILON, 0.0)
            && corrected.propagatingEta == Some(2.0)
  {
    TirExampleIsTir(pl, isect);
    ExampleMirrors(isect);
    ExampleOrigin(isect, Vec3(-0.6, 0.8, 0.0));
  }

  /** In the example, a transmissive surface below the depth limit makes
      `shade` trace the transmission ray; the program's shader sends it to
      (0.6, -0.8, 0), the corrected one to (-0.6, 0.8, 0). */
  lemma ShadeTracesTirRay(sh: Shader, isect: Intersection, depth: int, k: nat)
    requires TirExample(isect) && sh.platform.sqrt(0.36) == 0.6
    requires !isect.isLight && TransmitGate(isect, depth)
    ensures ShaderTransmissionRay(sh, isect) in Shade(sh, Some(isect), depth, k).traced
    ensures sh.tir.AsWritten? ==> ShaderTransmissionRay(sh, isect).dir == Vec3(0.6, -0.8, 0.0)
    ensures sh.tir.Mirror? ==> ShaderTransmissionRay(sh, isect).dir == Vec3(-0.6, 0.8, 0.0)
  {
    ShadeTracesTransmissionRay(sh, isect, depth, k);
    TirRuleDirections(sh, isect);
  }

  /** With the transmission gate open, `shade` traces the shader's
      transmission ray. */
  lemma ShadeTracesTransmissionRay(sh: Shader, isect: Intersection, depth: int, k: nat)
    requires !isect.isLight && TransmitGate(isect, depth)
    ensures ShaderTransmissionRay(sh, isect) in Shade(sh, Some(isect), depth, k).traced
  {
    var gR := ReflectGate(isect, depth);
    UnfoldTraced(sh, isect, depth, k, gR, true);
    var rs := Shade(sh, sh.scene.trace(ReflectionRay(isect)), depth + 2, k);
    var head := if gR then [ReflectionRay(isect)] + rs.traced else [];
    var tRay := ShaderTransmissionRay(sh, isect);
    var tail := [tRay] + Shade(sh, sh.scene.trace(tRay), depth + 2, if gR then rs.next else k).traced;
    assert Shade(sh, Some(isect), depth, k).traced == head + tail;
    assert (head + tail)[|head|] == tRay;
  }

  lemma TirRuleDirections(sh: Shader, isect: Intersection)
    requires TirExample(isect) && sh.platform.sqrt(0.36) == 0.6
    ensures sh.tir.AsWritten? ==> ShaderTransmissionRay(sh, isect).dir == Vec3(0.6, -0.8, 0.0)
    ensures sh.tir.Mirror? ==> ShaderTransmissionRay(sh, isect).dir == Vec3(-0.6, 0.8, 0.0)
  {
    if sh.tir.AsWritten? {
      TirCounterexample(sh.platform, isect);
    } else {
      TirCorrected(sh.platform, isect);
    }
  }

  lemma ExampleMirrors(isect: Intersection)
    requires isect.sn == Vec3(0.0, 1.0, 0.0) && isect.wo == Vec3(0.6, 0.8, 0.0)
    ensures Reflect(isect.wo.Neg(), isect.sn) == Vec3(0.6, -0.8, 0.0)
    ensures Reflect(isect.wo, isect.sn) == Vec3(-0.6, 0.8, 0.0)
  {
    MirrorsAboutUp(isect.wo, isect.sn);
  }

  lemma MirrorsAboutUp(w: Vec3, n: Vec3)
    requires n == Vec3(0.0, 1.0, 0.0) && w == Vec3(0.6, 0.8, 0.0)
    ensures Reflect(w.Neg(), n) == Vec3(0.6, -0.8, 0.0)
    ensures Reflect(w, n) == Vec3(-0.6, 0.8, 0.0)
  {
    NegateExample(w);
    MirrorUp(w.Neg(), n);
    MirrorUp(w, n);
  }

  lemma NegateExample(w: Vec3)
    requires w == Vec3(0.6, 0.8, 0.0)
    ensures w.Neg() == Vec3(-0.6, -0.8, 0.0)
  {
  }

  /** Mirroring about +Y flips the horizontal components. */
  lemma MirrorUp(v: Vec3, n: Vec3)
    requires n == Vec3(0.0, 1.0, 0.0)
    ensures Reflect(v, n) == Vec3(-v.x, v.y, -v.z)
  {
    assert n.Dot(v) == v.y;
  }

  /** Where a ray in direction `d` leaving the example's hit point through
      the surface's back starts: below the surface when `d` heads down,
      above it when `d` heads up. */
  lemma ExampleOrigin(isect: Intersection, d: Vec3)
    requires isect.p == Origin && isect.gn == Vec3(0.0, 1.0, 0.0)
    ensures d.y < 0.0 ==> d.Dot(isect.gn.Neg()) >= 0.0 && isect.p.Add(isect.gn.Neg().Scale(EPSILON)) == Vec3(0.0, -EPSILON, 0.0)
    ensures d.y > 0.0 ==> d.Dot(isect.gn.Neg()) < 0.0 && isect.p.Sub(isect.gn.Neg().Scale(EPSILON)) == Vec3(0.0, EPSILON, 0.0)
  {
    OffsetsFromOrigin(isect.p, isect.gn, d);
  }

  lemma OffsetsFromOrigin(p: Vec3, n: Vec3, d: Vec3)
    requires p == Origin && n == Vec3(0.0, 1.0, 0.0)
    ensures d.y < 0.0 ==> d.Dot(n.Neg()) >= 0.0 && p.Add(n.Neg().Scale(EPSILON)) == Vec3(0.0, -EPSILON, 0.0)
    ensures d.y > 0.0 ==> d.Dot(n.Neg()) < 0.0 && p.Sub(n.Neg().Scale(EPSILON)) == Vec3(0.0, EPSILON, 0.0)
  {
    NegateUp(n);
    assert d.Dot(n.Neg()) == -d.y;
  }

  lemma NegateUp(n: Vec3)
    requires n == Vec3(0.0, 1.0, 0.0)
    ensures n.Neg() == Vec3(0.0, -1.0, 0.0)
  {
  }
}
