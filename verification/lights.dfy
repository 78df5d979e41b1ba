/** Light sources as a closed tagged union over {Ambient, Point, Area}, and
    the area light's sampling contract. */
module Lights {
  import opened Options
  import opened Vectors
  import opened Colors

  /** The planar emitter backing an area light (vertices and normal). */
  datatype Triangle = Triangle(v1: Vec3, v2: Vec3, v3: Vec3, n: Vec3)

  /** An area light: its power, derived intensity, backing triangle and the
      constant uniform-area sampling density. */
  datatype AreaLight = AreaLight(power: RGB, intensity: RGB, gem: Triangle, pdf: real)

  /** Result of `Sample_L(r, &p)`: the radiance returned and the value the
      out-parameter `p` holds afterwards. */
  datatype Sample = Sample(radiance: RGB, pos: Option<Vec3>)

  /** Result of `Sample_L(r, &p, &pdf)`. */
  datatype PdfSample = PdfSample(radiance: RGB, pos: Option<Vec3>, pdf: real)

  datatype Light =
    | Ambient(radiance: RGB)
    | Point(intensity: RGB, position: Vec3)
    | Area(emitter: AreaLight)

  /** The `AreaLight` constructor; `area` is the backing triangle's area. */
  function NewAreaLight(power: RGB, v1: Vec3, v2: Vec3, v3: Vec3, n: Vec3, area: real): (a: AreaLight)
    requires area > 0.0
    ensures a.pdf * area == 1.0
    ensures a.pdf > 0.0
    ensures a.intensity.Scale(area) == power
    ensures a.power == power && a.gem == Triangle(v1, v2, v3, n)
  {
    var pdf := 1.0 / area;
    var a := AreaLight(power, power.Scale(pdf), Triangle(v1, v2, v3, n), pdf);
    IntensityTimesArea(power, pdf, area);
    a
  }

  lemma IntensityTimesArea(power: RGB, pdf: real, area: real)
    requires pdf * area == 1.0
    ensures power.Scale(pdf).Scale(area) == power
  {
    assert area * (pdf * power.r) == (pdf * area) * power.r;
    assert area * (pdf * power.g) == (pdf * area) * power.g;
    assert area * (pdf * power.b) == (pdf * area) * power.b;
  }

  /** `L(p)`: the radiance leaving point `p` of the emitter. */
  function RadianceAt(a: AreaLight, p: Vec3): RGB {
    a.power
  }

  /** `L()`. */
  function Radiance(a: AreaLight): RGB {
    a.power
  }

  /** Both radiance queries give the light's power, wherever they look. */
  lemma RadianceIsPower(a: AreaLight, p: Vec3, q: Vec3)
    ensures RadianceAt(a, p) == RadianceAt(a, q) == Radiance(a) == a.power
  {
  }

  /** `Sample_L(r, &p)`: a stub that returns black and never writes `p`. */
  function SampleL(a: AreaLight, r: (real, real), p: Option<Vec3>): (s: Sample)
    ensures s.radiance == Black && s.radiance.IsZero()
    ensures s.pos == p
  {
    Sample(Black, p)
  }

  /** `Sample_L(r, &p, &pdf)`: the two-argument sample plus the light's pdf. */
  function SampleLPdf(a: AreaLight, r: (real, real), p: Option<Vec3>): (s: PdfSample)
    ensures Sample(s.radiance, s.pos) == SampleL(a, r, p)
    ensures s.pdf == a.pdf
  {
    var s2 := SampleL(a, r, p);
    PdfSample(s2.radiance, s2.pos, a.pdf)
  }

  /** Whatever random pair is used, sampling an area light yields black and
      leaves `p` as it was; for a constructed light the pdf it reports is
      the reciprocal of the area. */
  lemma SampleIgnoresRandomPair(power: RGB, v1: Vec3, v2: Vec3, v3: Vec3, n: Vec3, area: real,
                                r: (real, real), r': (real, real), p: Option<Vec3>)
    requires area > 0.0
    ensures var a := NewAreaLight(power, v1, v2, v3, n, area);
            SampleLPdf(a, r, p) == SampleLPdf(a, r', p) &&
            SampleLPdf(a, r, p).pdf * area == 1.0 &&
            SampleLPdf(a, r, p).pos == p
  {
  }

  /** `AmbientLight::L()` (AmbientLight.hpp is not part of this model: the
      light is taken to return its stored radiance). */
  function AmbientRadiance(l: Light): RGB
    requires l.Ambient?
  {
    l.radiance
  }

  /** `PointLight::Sample_L(NULL, &p)` (PointLight.hpp is not part of this
      model: the light is taken to write its position and return its
      intensity). */
  function PointSample(l: Light): Sample
    requires l.Point?
  {
    Sample(l.intensity, Some(l.position))
  }
}
