/** The `Ray` value type: origin, direction, the reciprocal direction used
    by slab intersection, and the bookkeeping fields a ray carries.  Fields
    the C++ constructors leave uninitialised are `None` until a caller sets
    them. */
module Rays {
  import opened Options
  import opened Vectors
  import opened Colors

  /** Offset used to push secondary-ray origins off a surface. */
  const EPSILON: real := 0.001

  /** One component of the reciprocal direction: `1/c` for a non-zero
      component, an IEEE infinity for a zero one. */
  datatype Recip = Finite(value: real) | Infinite

  datatype InvDir = InvDir(x: Recip, y: Recip, z: Recip)

  datatype Ray = Ray(
    o: Vec3,
    dir: Vec3,
    faceId: Option<int>,
    invDir: Option<InvDir>,
    throughput: Option<RGB>,
    pixX: Option<int>,
    pixY: Option<int>,
    propagatingEta: Option<real>)
  {
    /** `invertDir`: recompute the reciprocal direction from `dir`. */
    function InvertDir(): (r: Ray)
      ensures r.invDir.Some? && InvConsistent(r.invDir.value, dir)
      ensures r == this.(invDir := r.invDir)
    {
      this.(invDir := Some(InvDir(RecipOf(dir.x), RecipOf(dir.y), RecipOf(dir.z))))
    }

    /** `adjustOrigin`: move the origin by EPSILON along `n`, flipped to the
        side the direction heads towards. */
    function AdjustOrigin(n: Vec3): (r: Ray)
      ensures dir.Dot(n) >= 0.0 ==> r.o == o.Add(n.Scale(EPSILON))
      ensures dir.Dot(n) < 0.0 ==> r.o == o.Sub(n.Scale(EPSILON))
      ensures r.o.Sub(o).Dot(dir) >= 0.0
      ensures r == this.(o := r.o)
    {
      var offset := n.Scale(EPSILON);
      var offset' := if dir.Dot(n) < 0.0 then offset.Scale(-1.0) else offset;
      this.(o := Vec3(o.x + offset'.x, o.y + offset'.y, o.z + offset'.z))
    }
  }

  function RecipOf(c: real): Recip {
    if c == 0.0 then Infinite else Finite(1.0 / c)
  }

  /** Each reciprocal component multiplies its direction component to one;
      a zero component has an infinite reciprocal. */
  predicate RecipConsistent(inv: Recip, c: real) {
    if c == 0.0 then inv.Infinite? else inv.Finite? && inv.value * c == 1.0
  }

  predicate InvConsistent(inv: InvDir, d: Vec3) {
    RecipConsistent(inv.x, d.x) && RecipConsistent(inv.y, d.y) && RecipConsistent(inv.z, d.z)
  }

  /** `Ray(o, d)`: its body builds a throw-away temporary, so only `o` and
      `dir` end up set. */
  function Create(o: Vec3, d: Vec3): (r: Ray)
    ensures r.o == o && r.dir == d
    ensures r.throughput.None? && r.invDir.None? && r.faceId.None?
    ensures r.pixX.None? && r.pixY.None? && r.propagatingEta.None?
  {
    Ray(o, d, None, None, None, None, None, None)
  }

  /** `Ray(o, d, throughput)`. */
  function CreateWithThroughput(o: Vec3, d: Vec3, t: RGB): (r: Ray)
    ensures r.o == o && r.dir == d && r.throughput == Some(t)
    ensures r.invDir.None? && r.faceId.None?
    ensures r.pixX.None? && r.pixY.None? && r.propagatingEta.None?
  {
    Ray(o, d, None, None, Some(t), None, None, None)
  }

  /** The two constructors differ only in the throughput they leave behind. */
  lemma ConstructorsAgreeButThroughput(o: Vec3, d: Vec3, t: RGB)
    ensures Create(o, d) == CreateWithThroughput(o, d, t).(throughput := None)
    ensures Create(o, d).throughput != CreateWithThroughput(o, d, t).throughput
  {
  }

  /** Reciprocals recomputed from the same direction are always the same:
      `invertDir` is idempotent. */
  lemma InvertDirIdempotent(r: Ray)
    ensures r.InvertDir().InvertDir() == r.InvertDir()
  {
  }

  /** Any reciprocal direction consistent with `d` is the one `invertDir`
      stores: the consistency predicate determines it. */
  lemma InvConsistentUnique(inv: InvDir, r: Ray)
    requires InvConsistent(inv, r.dir)
    ensures r.InvertDir().invDir == Some(inv)
  {
    RecipUnique(inv.x, r.dir.x);
    RecipUnique(inv.y, r.dir.y);
    RecipUnique(inv.z, r.dir.z);
  }

  lemma RecipUnique(inv: Recip, c: real)
    requires RecipConsistent(inv, c)
    ensures inv == RecipOf(c)
  {
    if c != 0.0 {
      calc {
        inv.value;
        inv.value * c * (1.0 / c);
        1.0 / c;
      }
    }
  }

  /** Moving the origin never makes the reciprocal direction stale. */
  lemma AdjustOriginKeepsInvDir(r: Ray, n: Vec3)
    requires r.invDir.Some? && InvConsistent(r.invDir.value, r.dir)
    ensures InvConsistent(r.AdjustOrigin(n).invDir.value, r.AdjustOrigin(n).dir)
  {
  }

  /** When the direction is not tangent to the surface, the side of the
      offset is set by the direction alone: `n` and `-n` give the same
      origin. */
  lemma AdjustOriginSignInvariant(r: Ray, n: Vec3)
    requires r.dir.Dot(n) != 0.0
    ensures r.AdjustOrigin(n.Neg()) == r.AdjustOrigin(n)
  {
    DotScale(n, -1.0, r.dir);
    assert r.dir.Dot(n.Neg()) == -r.dir.Dot(n);
  }

  /** For a direction tangent to the surface the two offsets differ by
      2·EPSILON·n: `n` and `-n` then push the origin to opposite sides. */
  lemma AdjustOriginTangent(r: Ray, n: Vec3)
    requires r.dir.Dot(n) == 0.0 && n != Origin
    ensures r.AdjustOrigin(n.Neg()).o != r.AdjustOrigin(n).o
  {
    DotScale(n, -1.0, r.dir);
    assert r.dir.Dot(n.Neg()) == 0.0;
  }
}
