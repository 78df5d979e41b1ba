# VI-RT distributed shader — a Dafny model of the shading core

This project models the shading core of the VI-RT ray tracer (the
"Distributed" variant) over real arithmetic:

- the recursive Whitted-style shader `DistributedShader::shade` with its two
  specular continuations, `specularReflection` and `specularTransmission`.
  This covers the background and emitter short-circuits, the gates on `Ks`
  and `Kt`, the depth limit `MAX_DEPTH = 4`, and the total-internal-reflection
  (TIR) branch;
- the direct-lighting estimator of `directLighting.cpp`:
  - the per-light rules for ambient, point and area lights;
  - the ALL_LIGHTS sum;
  - the UNIFORM_ONE single-light estimate;
  - the mode dispatch;
- the `AreaLight` value: its constructor, `L`, and both `Sample_L` overloads;
- the `Ray` value: `EPSILON`, both constructors, `invertDir` and
  `adjustOrigin`.

## How the program is represented

Everything is an immutable datatype plus pure functions. The modules follow
the source's structure:

| module | contents |
|---|---|
| `Options` | `Option` |
| `Vectors` | `Vec3` |
| `Colors` | `RGB`, plus `OptAdd`/`OptMul`/`OptScale` on possibly indeterminate colours |
| `Rays` | `Ray`, `EPSILON` |
| `Lights` | `Light` as a closed union of Ambient, Point and Area; `AreaLight` |
| `Scenes` | `BRDF`, `Intersection`, and the collaborators `Scene` and `Platform` |
| `DirectLighting` and `DirectLightingProperties` | the estimator and its properties |
| `Shading` and `ShadingProperties` | the shader and its properties |

Four things are passed in as parameters, because the core only calls them:

- **Scene queries.** `Scene::trace` and `Scene::visibility` are the function
  fields `Scene.trace` and `Scene.visible`.
- **Opaque numerics.** `sqrt`, `Vector::normalize`, and the value an
  uninitialised `Point` holds when it is read are the fields of `Platform`.
- **Random numbers.** The `mt19937`/`uniform_real_distribution` stream is a
  function `rng: nat -> real`, read at a cursor `k`. Every estimate returns
  the next unused cursor. The order of draws is the source's order: the
  reflection subtree, then the transmission subtree, then the direct-lighting
  estimate. In that estimate, one number picks the light and two more are
  drawn for an area light.
- **Unset values.** A value the C++ leaves unset is an `Option`. A colour of
  `None` means the source's result is not a determinate radiance. Two places
  produce one:
  - dividing by the `pdf` that `direct_AreaLight` leaves unwritten when `Kd`
    is zero;
  - reading a light at index `-1` when the light list is empty.

The recursion has a depth quirk. `shade` passes `depth+1` to a specular
helper, and the helper passes `depth+1` again to `shade`. Each bounce
therefore re-enters `shade` two levels deeper. `Shade` terminates on
`Budget(depth)`. The helpers are only called under the `depth < MAX_DEPTH`
gate, and they require `depth <= MAX_DEPTH`.

Two details of the code shape the model:

- **Ray throughput.** The two-argument `Ray(o, d)` constructor builds a
  discarded temporary, so its throughput stays unset (`Rays.Create`).
- **TIR direction.** Under total internal reflection the code takes
  `reflect(-wo, sn)`, which is not the mirror direction (see Findings).
  The shader carries a `TirRule`. With `AsWritten` it traces exactly the
  ray the code builds, so that `Shade` is the program's shader. With
  `Mirror` it traces the corrected ray. Every structural property below
  (unfolding, trace bound, determinacy) is stated for both rules.

## Model

| member | source | states |
|---|---|---|
| `Rays.Create` | VI-RT-V3-Distributed/Rays/ray.hpp:27-29 | `Ray(o, d)` stores `o` and `d` unchanged; because its body only builds a temporary, throughput, reciprocal direction, face, pixel and index all stay unset |
| `Rays.CreateWithThroughput` | VI-RT-V3-Distributed/Rays/ray.hpp:26 | `Ray(o, d, t)` stores `o`, `d` and the throughput `t`, and nothing else |
| `Rays.ConstructorsAgreeButThroughput` | VI-RT-V3-Distributed/Rays/ray.hpp:26-29 | the two constructors build the same ray except for the throughput, which only the three-argument form sets |
| `Rays.Ray.InvertDir` | VI-RT-V3-Distributed/Rays/ray.hpp:32-36 | afterwards each reciprocal component times its direction component is 1 (infinite for a zero component), and nothing else changes, the direction included |
| `Rays.InvertDirIdempotent` | VI-RT-V3-Distributed/Rays/ray.hpp:32-36 | recomputing the reciprocal direction a second time changes nothing |
| `Rays.InvConsistentUnique` | VI-RT-V3-Distributed/Rays/ray.hpp:32-36 | any reciprocal direction consistent with `dir` is exactly the one `invertDir` stores |
| `Rays.Ray.AdjustOrigin` | VI-RT-V3-Distributed/Rays/ray.hpp:38-45 | the origin moves by exactly `+EPSILON·n` when `dir·n >= 0` and `-EPSILON·n` otherwise, never against the direction, and no other field changes |
| `Rays.AdjustOriginKeepsInvDir` | VI-RT-V3-Distributed/Rays/ray.hpp:38-45 | offsetting the origin never makes a consistent reciprocal direction stale |
| `Rays.AdjustOriginSignInvariant` | VI-RT-V3-Distributed/Rays/ray.hpp:38-45 | when `dir·n != 0`, offsetting along `n` and along `-n` gives the same ray |
| `Rays.AdjustOriginTangent` | VI-RT-V3-Distributed/Rays/ray.hpp:38-45 | when `dir·n == 0` and `n` is non-zero, `n` and `-n` push the origin to different places |
| `Lights.NewAreaLight` | VI-RT-V3-Distributed/Light/AreaLight.hpp:20-25 | for a positive triangle area, `pdf·area = 1`, so `pdf > 0`, and `intensity·area = power`, i.e. `intensity = power·pdf` |
| `Lights.RadianceIsPower` | VI-RT-V3-Distributed/Light/AreaLight.hpp:28-29 | `L(p)` and `L()` both return the light's power, whatever point is asked about |
| `Lights.SampleL` | VI-RT-V3-Distributed/Light/AreaLight.hpp:32-36 | the two-argument `Sample_L` returns zero radiance for every random pair and leaves `p` as it was |
| `Lights.SampleLPdf` | VI-RT-V3-Distributed/Light/AreaLight.hpp:38-42 | the three-argument `Sample_L` returns what the two-argument form returns and writes the light's own pdf |
| `Lights.SampleIgnoresRandomPair` | VI-RT-V3-Distributed/Light/AreaLight.hpp:20-42 | for a constructed light, sampling with any two random pairs gives the same result, and the reported pdf is the reciprocal of the area |
| `DirectLighting.DirectAmbient` | VI-RT-V3-Distributed/Shader/directLighting.cpp:87-94 | black when `Ka` is zero, otherwise `Ka·L()`; black light gives black |
| `DirectLighting.ShadowRay` | VI-RT-V3-Distributed/Shader/directLighting.cpp:108-112 | the shadow ray points at the light, carries the pixel, and has its origin pushed `EPSILON` along `±gn`, on the side the ray heads to |
| `DirectLighting.PathTo` | VI-RT-V3-Distributed/Shader/directLighting.cpp:102-112 | the direction towards the light is the normalised `Lpos - p`, the distance is its norm, `cosL` is the direction's dot with `sn`, and the shadow ray is built along that direction |
| `DirectLighting.Illuminate` | VI-RT-V3-Distributed/Shader/directLighting.cpp:102-117 | radiance `L` from `Lpos` adds `L·Kd·cosL` exactly when `cosL > 0` and the shadow query succeeds, black otherwise; black `L` adds black |
| `DirectLighting.DirectPoint` | VI-RT-V3-Distributed/Shader/directLighting.cpp:96-122 | black when `Kd` is zero, when `cosL <= 0`, or when the shadow query fails; otherwise exactly `L·Kd·cosL` |
| `DirectLighting.DirectArea` | VI-RT-V3-Distributed/Shader/directLighting.cpp:124-150 | the area term is black for every scene, random pair and unset sample position; its pdf is written exactly when `Kd` is non-zero |
| `DirectLighting.DivPdf` | VI-RT-V3-Distributed/Shader/directLighting.cpp:57 | `color/pdf` is determinate exactly when the pdf was written and is non-zero; then multiplying the result by the pdf gives `color` back |
| `DirectLighting.LightTerm` | VI-RT-V3-Distributed/Shader/directLighting.cpp:43-58 | each light's term follows its own rule; only an area light consumes random numbers (two), and its term is determinate exactly when `Kd` and the pdf are non-zero, and black when it is |
| `DirectLighting.DirectAll` | VI-RT-V3-Distributed/Shader/directLighting.cpp:37-61 | an empty light list gives black; the loop consumes two random numbers per area light |
| `DirectLighting.AllCursor` | VI-RT-V3-Distributed/Shader/directLighting.cpp:51-55 | light `i`'s random pair sits after two numbers for every area light before it |
| `DirectLighting.AllIsTermSum` | VI-RT-V3-Distributed/Shader/directLighting.cpp:37-61 | ALL_LIGHTS equals the in-order sum of the per-light terms, each read at its closed-form cursor |
| `DirectLighting.Trunc` | VI-RT-V3-Distributed/Shader/directLighting.cpp:67 | the float-to-int conversion truncates toward zero: the floor for non-negative values, the ceiling for negative ones |
| `DirectLighting.LightIndex` | VI-RT-V3-Distributed/Shader/directLighting.cpp:67-68 | the index never exceeds `n-1`, and for `n > 0` and a draw in `[0, 1]` it lies in `[0, n)` |
| `DirectLighting.OneWithIndex` | VI-RT-V3-Distributed/Shader/directLighting.cpp:69-84 | once light `i` is picked, the result is that light's term (an area term already divided by its pdf) scaled by the light count |
| `DirectLighting.DirectOne` | VI-RT-V3-Distributed/Shader/directLighting.cpp:63-85 | UNIFORM_ONE draws one number for the index and then evaluates the picked light; an empty light list has no determinate result; at least one number is consumed |
| `DirectLighting.Direct` | VI-RT-V3-Distributed/Shader/directLighting.cpp:20-34 | ALL_LIGHTS and UNIFORM_ONE run their estimators; any other mode gives black and draws nothing |
| `DirectLightingProperties.AmbientIgnoresScene` | VI-RT-V3-Distributed/Shader/directLighting.cpp:87-94 | an ambient term is the same in every scene: it never traces or queries visibility |
| `DirectLightingProperties.PointVisibilityIsOneQuery` | VI-RT-V3-Distributed/Shader/directLighting.cpp:96-122 | two scenes that answer the one shadow query alike give the same point-light term |
| `DirectLightingProperties.PointShadowQuery` | VI-RT-V3-Distributed/Shader/directLighting.cpp:100-114 | the shadow query is a ray from `p` towards the light, offset along `±gn` and never against its direction, with maximum distance `Ldistance - EPSILON` |
| `DirectLightingProperties.AreaTermIsBlack` | VI-RT-V3-Distributed/Shader/directLighting.cpp:51-58 | an area light's term is indeterminate exactly when `Kd` is zero (the pdf is unwritten) and black otherwise |
| `DirectLightingProperties.HeadOnPoint` | VI-RT-V3-Distributed/Shader/directLighting.cpp:99-117 | a point light straight along the shading normal adds exactly `L·Kd` when unoccluded and black when occluded |
| `DirectLightingProperties.DiffuseScenario` | VI-RT-V3-Distributed/Shader/directLighting.cpp:96-122 | for grey `Kd = 0.8` at the origin, normal `+Y` and a unit light one unit above, the result is 0.8 grey when unoccluded and black when occluded |
| `DirectLightingProperties.LightIndexBucket` | VI-RT-V3-Distributed/Shader/directLighting.cpp:67-68 | for a draw in `[0, 1)`, light `j` is picked exactly when `j <= u·n < j+1`, a share `1/n` of the draws |
| `DirectLightingProperties.ChoicesAreScaledTerms` | VI-RT-V3-Distributed/Shader/directLighting.cpp:63-85 | without area lights, summing UNIFORM_ONE over all choices gives `n` times the per-light term sum |
| `DirectLightingProperties.OneIsUnbiased` | VI-RT-V3-Distributed/Shader/directLighting.cpp:37-85 | for ambient and point lights, the UNIFORM_ONE result averaged over the `n` equally likely choices equals the ALL_LIGHTS sum |
| `Shading.Reflect` | VI-RT-V3-Distributed/Shader/DistributedShader.cpp:25-28 | no contract of its own: `2(N·V)N - V`; what it means is stated by the three lemmas below |
| `Shading.ReflectKeepsNormalComponent` | VI-RT-V3-Distributed/Shader/DistributedShader.cpp:25-28 | for a unit normal, `reflect` keeps the component along the normal |
| `Shading.ReflectInvolution` | VI-RT-V3-Distributed/Shader/DistributedShader.cpp:25-28 | for a unit normal, reflecting twice gives back the original vector |
| `Shading.ReflectNegates` | VI-RT-V3-Distributed/Shader/DistributedShader.cpp:25-28 | reflecting `-V` gives the negated reflection of `V` |
| `Shading.Refract` | VI-RT-V3-Distributed/Shader/DistributedShader.cpp:13-23 | whatever the opaque `sqrt` and `normalize` compute, the result is the normalised sum of `r_out_perp` and some multiple of `N` |
| `Shading.RefractPerpIsTangent` | VI-RT-V3-Distributed/Shader/DistributedShader.cpp:14-18 | for a unit normal and an unclamped cosine, `r_out_perp` has no component along `N` |
| `Shading.ReflectionRay` | VI-RT-V3-Distributed/Shader/DistributedShader.cpp:33-44 | the mirror ray runs along `reflect(wo, sn)`, keeps the incident index, the pixel and the face, and is offset along `±gn` to the side it heads to |
| `Shading.Ior` | VI-RT-V3-Distributed/Shader/DistributedShader.cpp:65 | the relative index times the material's index is the incident index |
| `Shading.CosThetaClamps` | VI-RT-V3-Distributed/Shader/DistributedShader.cpp:66-69 | `cos_theta` is the cosine between `sn` and `wo`, clamped at 1 |
| `Shading.SinTheta` | VI-RT-V3-Distributed/Shader/DistributedShader.cpp:70 | no contract of its own: `sqrt(1 - cos²θ)` with the opaque `sqrt`; `ShadingProperties.SineSquared` states what it means for a sound square root |
| `ShadingProperties.SineSquared` | VI-RT-V3-Distributed/Shader/DistributedShader.cpp:69-70 | for a sound square root and a cosine of at least -1, `sinθ >= 0` and `sin²θ = 1 - cos²θ` |
| `Shading.Tir` | VI-RT-V3-Distributed/Shader/DistributedShader.cpp:73 | no contract of its own: the test `IOR·sinθ > 1`; `ShadingProperties.TirWithoutSqrt` states it without the square root |
| `Shading.TransmissionRayWith` | VI-RT-V3-Distributed/Shader/DistributedShader.cpp:64-86 | the transmission ray takes the TIR direction under TIR and `refract(V, N, IOR)` otherwise; it keeps `incident_eta` under TIR and takes `f.eta` otherwise; it is offset along `∓gn` |
| `Shading.TransmissionRayAsWritten` | VI-RT-V3-Distributed/Shader/DistributedShader.cpp:73-75 | under TIR, the direction as written is `reflect(-wo, sn)`, the negated mirror direction |
| `Shading.TransmissionRay` | VI-RT-V3-Distributed/Shader/DistributedShader.cpp:73-86 | corrected ray: under TIR, its direction is the mirror direction of the reflection ray and it keeps the incident index; otherwise it is the ray as written |
| `Shading.RulesAgreeWithoutTir` | VI-RT-V3-Distributed/Shader/DistributedShader.cpp:73-86 | away from total internal reflection both TIR rules trace the same transmission ray, so the rules differ only on TIR hits |
| `Shading.Shade` | VI-RT-V3-Distributed/Shader/DistributedShader.cpp:100-127 | no hit gives the background; an emitter gives `Le`; neither case traces or draws anything; a surface traces at most `TraceBound(depth)` rays |
| `Shading.SpecularReflection` | VI-RT-V3-Distributed/Shader/DistributedShader.cpp:30-56 | the first ray traced is the mirror ray, followed by at most the trace bound one level down |
| `Shading.SpecularTransmission` | VI-RT-V3-Distributed/Shader/DistributedShader.cpp:58-98 | the first ray traced is the shader's transmission ray (the code's ray under `AsWritten`), followed by at most the trace bound one level down |
| `ShadingProperties.ShadeUnfolds` | VI-RT-V3-Distributed/Shader/DistributedShader.cpp:111-126 | one level of `shade` on a non-emitting hit: the gated reflection, then the gated transmission, then the UNIFORM_ONE estimate, added onto black |
| `ShadingProperties.ReflectionUnfolds` | VI-RT-V3-Distributed/Shader/DistributedShader.cpp:30-56 | `specularReflection` is `Ks` times the shade of the traced mirror ray one level deeper |
| `ShadingProperties.TransmissionUnfolds` | VI-RT-V3-Distributed/Shader/DistributedShader.cpp:58-98 | `specularTransmission` is `Kt` times the shade of the traced transmission ray (the shader's rule) one level deeper |
| `ShadingProperties.ShadeUnfoldsTwoLevels` | VI-RT-V3-Distributed/Shader/DistributedShader.cpp:100-127 | a non-emitting hit is `Ks·shade(reflection, depth+2)` if gated in, plus `Kt·shade(transmission, depth+2)` if gated in, plus exactly one UNIFORM_ONE estimate drawn after both; the gated-in rays and their subtrees are all that is traced |
| `ShadingProperties.ShadeWithoutSpecular` | VI-RT-V3-Distributed/Shader/DistributedShader.cpp:113-123 | with depth at the limit, or `Ks` and `Kt` both zero, nothing is traced and the result is the direct-lighting estimate alone |
| `ShadingProperties.AtMostSixTraces` | VI-RT-V3-Distributed/Shader/DistributedShader.cpp:113-121 | from depth 0 at most six rays are traced, at most two from depth 2, and none from depth 4 |
| `ShadingProperties.TracedWhenSpecular` | VI-RT-V3-Distributed/Shader/DistributedShader.cpp:114-121 | with both gates open, the traced rays are the mirror ray and its subtree, then the transmission ray and its subtree |
| `ShadingProperties.TraceBoundReached` | VI-RT-V3-Distributed/Shader/DistributedShader.cpp:113-121 | in a scene of specular surfaces only, exactly `TraceBound(depth)` rays are traced, six from depth 0, so the bound is tight |
| `ShadingProperties.ShadeIsDeterminate` | VI-RT-V3-Distributed/Shader/DistributedShader.cpp:100-127 | with a non-empty light list, no area lights and draws in `[0, 1]`, every shade result is a determinate colour |
| `ShadingProperties.OneIsDeterminate` | VI-RT-V3-Distributed/Shader/directLighting.cpp:67-84 | under the same conditions the UNIFORM_ONE estimate is determinate |
| `ShadingProperties.TirWithoutSqrt` | VI-RT-V3-Distributed/Shader/DistributedShader.cpp:65-73 | with a sound square root, TIR holds exactly when `IOR > 0` and `IOR²(1 - cos²θ) > 1` |
| `ShadingProperties.TirCondition` | VI-RT-V3-Distributed/Shader/DistributedShader.cpp:70-73 | for `s = sqrt(1 - c²)`, `i·s > 1` exactly when `i > 0` and `i²(1 - c²) > 1` |
| `ShadingProperties.TirDirectionSide` | VI-RT-V3-Distributed/Shader/DistributedShader.cpp:73-86 | under TIR, the ray as written has the negated normal component of `wo`, i.e. it crosses the surface; the corrected ray keeps that component and the incident index |
| `ShadingProperties.TirExampleIsTir` | VI-RT-V3-Distributed/Shader/DistributedShader.cpp:65-73 | viewing at `cosθ = 0.8` from index 2 into index 1 gives `sinθ = 0.6` and `IOR = 2`, so TIR holds |
| `ShadingProperties.ShadeTracesTirRay` | VI-RT-V3-Distributed/Shader/DistributedShader.cpp:58-98 | in that example, with the transmission gate open, `shade` traces the transmission ray; the program's shader (`AsWritten`) sends it to `(0.6, -0.8, 0)`, the corrected one to `(-0.6, 0.8, 0)` |
| `ShadingProperties.ShadeTracesTransmissionRay` | VI-RT-V3-Distributed/Shader/DistributedShader.cpp:119-121 | with `Kt` non-zero and depth below the limit, the transmission ray is among the rays `shade` traces |
| `ShadingProperties.TirCounterexample` | VI-RT-V3-Distributed/Shader/DistributedShader.cpp:73-86 | in that example, the ray as written heads to `(0.6, -0.8, 0)` from below the surface, yet it is still tagged with index 2 |
| `ShadingProperties.TirCorrected` | VI-RT-V3-Distributed/Shader/DistributedShader.cpp:73-86 | in that example, the corrected ray heads to the mirror direction `(-0.6, 0.8, 0)` from above the surface, where index 2 belongs |

## Left out

- Floating point: everything is over `real`, with `EPSILON = 0.001` exact. Float rounding, infinities and NaNs are not modelled, except that a zero direction component has an infinite reciprocal.
- `sqrt` and `Vector::normalize` are opaque functions, fields of `Platform`. `Vector::norm` is `Scenes.Norm`, the opaque `sqrt` of the squared length. `refract` is written out as `Shading.Refract` on top of them. Because `normalize` is opaque, nothing is proved about the refracted direction beyond its tangential part.
- `Triangle::area` is an input to `NewAreaLight`, required to be positive. The triangle and its area computation are not part of this model.
- `Scene::trace` and `Scene::visibility` are function parameters. Acceleration structures and the geometry behind them are not part of this model.
- Random numbers: `std::mt19937` and `uniform_real_distribution` are replaced by the stream `rng`. The generator itself and any statistical property of it are not modelled. Unbiasedness is stated as an exact average over the `n` choices, not as a sampling limit.
- AmbientLight.hpp and PointLight.hpp are not part of this model. Their `L()` and `Sample_L` are taken to return the stored radiance, and the position and intensity, respectively.
- WhittedShader.hpp holds declarations only; its random generator and distribution are the `rng` parameter.
- Memory ownership (`new`/`delete` of the light's triangle), the destructors and the default `Ray()` constructor have no counterpart in a value model.
- Sampling cannot change an area light's power, intensity or pdf, because the light is an immutable value. No lemma states this.
- Shading.SpecularReflection: requires `depth <= MAX_DEPTH`, which the source does not check. Its only caller, `shade`, calls it only under `depth < MAX_DEPTH`.
- Shading.SpecularTransmission: requires `depth <= MAX_DEPTH`, for the same reason as the reflection helper.
- `scene->numLights` is taken to be the length of `scene->lights`: the model has one light list and reads its length wherever the code reads `numLights`.
- The material index `eta` is a positive real. The source divides by it and never checks it.
- Only the UNIFORM_ONE mode is wired into `Shade`, as in the source. The commented-out ALL_LIGHTS call is not modelled.

## Findings

| source | as written | input that shows it | evidently intended | confidence | as-written member | corrected member |
|---|---|---|---|---|---|---|
| VI-RT-V3-Distributed/Shader/DistributedShader.cpp:73-75 | under total internal reflection the transmission ray takes `reflect(V, N)` with `V = -wo`, which is `-reflect(wo, N)`: the negated mirror direction, pointing through the surface | a hit at the origin with `gn = sn = +Y`, `wo = (0.6, 0.8, 0)`, incident index 2 and material index 1: TIR holds, and the ray as written heads to `(0.6, -0.8, 0)` from `(0, -EPSILON, 0)` while still tagged with index 2 | the mirror direction `reflect(wo, N)`, as `specularReflection` uses, which stays in the incident medium that the kept `incident_eta` names: `(-0.6, 0.8, 0)` from `(0, EPSILON, 0)` | not executed | `ShadingProperties.TirCounterexample` | `ShadingProperties.TirCorrected` |

With `TirRule.AsWritten` the shader traces the ray as written. With
`TirRule.Mirror` it traces the corrected ray, `Shading.TransmissionRay`.
`ShadingProperties.ShadeTracesTirRay` shows both shaders on the example.
`ShadingProperties.TirDirectionSide` shows the general case. The ray as
written takes the negated normal component of `wo`, so it crosses the
surface. The corrected ray keeps that component and the incident index.
