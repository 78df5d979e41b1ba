/** Linear RGB colour values (the renderer's `RGB`) and their arithmetic.
    Radiance that may be indeterminate is carried as `Option<RGB>`. */
module Colors {
  import opened Options

  datatype RGB = RGB(r: real, g: real, b: real) {

    /** `RGB::isZero`: every channel is exactly zero. */
    predicate IsZero() {
      r == 0.0 && g == 0.0 && b == 0.0
    }

    function Add(c: RGB): RGB {
      RGB(r + c.r, g + c.g, b + c.b)
    }

    /** Channel-wise product, `RGB * RGB`. */
    function Mul(c: RGB): RGB {
      RGB(r * c.r, g * c.g, b * c.b)
    }

    function Scale(s: real): RGB {
      RGB(s * r, s * g, s * b)
    }

    function Div(s: real): RGB
      requires s != 0.0
    {
      RGB(r / s, g / s, b / s)
    }
  }

  const Black := RGB(0.0, 0.0, 0.0)

  /** Sum of two possibly indeterminate colours: indeterminate if either is. */
  function OptAdd(a: Option<RGB>, b: Option<RGB>): (s: Option<RGB>)
    ensures s.Some? <==> a.Some? && b.Some?
    ensures s.Some? ==> s.value == a.value.Add(b.value)
  {
    if a.Some? && b.Some? then Some(a.value.Add(b.value)) else None
  }

  /** Channel-wise product of a coefficient with a possibly indeterminate colour. */
  function OptMul(k: RGB, a: Option<RGB>): (s: Option<RGB>)
    ensures s.Some? <==> a.Some?
    ensures s.Some? ==> s.value == k.Mul(a.value)
  {
    match a
    case Some(c) => Some(k.Mul(c))
    case None => None
  }

  /** A possibly indeterminate colour scaled by a real factor. */
  function OptScale(a: Option<RGB>, s: real): (t: Option<RGB>)
    ensures t.Some? <==> a.Some?
    ensures t.Some? ==> t.value == a.value.Scale(s)
  {
    match a
    case Some(c) => Some(c.Scale(s))
    case None => None
  }

  lemma ScaleDistributes(a: RGB, b: RGB, s: real)
    ensures a.Add(b).Scale(s) == a.Scale(s).Add(b.Scale(s))
  {
  }

  lemma ScaleScale(c: RGB, s: real, t: real)
    ensures c.Scale(s).Scale(t) == c.Scale(s * t)
  {
    assert t * (s * c.r) == (s * t) * c.r;
    assert t * (s * c.g) == (s * t) * c.g;
    assert t * (s * c.b) == (s * t) * c.b;
  }

  lemma ScaleOne(c: RGB)
    ensures c.Scale(1.0) == c
  {
  }

  lemma AddBlack(c: RGB)
    ensures Black.Add(c) == c && c.Add(Black) == c
  {
  }
}
