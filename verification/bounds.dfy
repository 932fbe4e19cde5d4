/** `Bounds3`: an axis-aligned box given by its minimum and maximum corners,
    with its derived measures and its union with another box or a point. */
module Bounds {
  import opened Vectors

  datatype Bounds3 = Bounds3(pmin: Vec3, pmax: Vec3)

  /** The corners are ordered on every axis. */
  predicate Valid(b: Bounds3) {
    LessEq(b.pmin, b.pmax)
  }

  predicate Contains(b: Bounds3, p: Vec3) {
    forall ax :: Get(b.pmin, ax) <= Get(p, ax) <= Get(b.pmax, ax)
  }

  /** `outer` reaches at least as far as `inner` on every side. */
  predicate Encloses(outer: Bounds3, inner: Bounds3) {
    forall ax :: Get(outer.pmin, ax) <= Get(inner.pmin, ax) && Get(inner.pmax, ax) <= Get(outer.pmax, ax)
  }

  /** `diagonal`: the extent of the box along each axis. */
  function Diagonal(b: Bounds3): (d: Vec3)
    ensures forall ax :: Get(d, ax) == Get(b.pmax, ax) - Get(b.pmin, ax)
    ensures Valid(b) <==> (0.0 <= d.x && 0.0 <= d.y && 0.0 <= d.z)
  {
    Sub(b.pmax, b.pmin)
  }

  /** `surface_area`: twice the sum of the three face areas. */
  function SurfaceArea(b: Bounds3): (s: real)
    ensures Valid(b) ==> 0.0 <= s
    ensures b.pmin == b.pmax ==> s == 0.0
  {
    var d := Diagonal(b);
    assert Valid(b) ==> 0.0 <= d.x * d.y && 0.0 <= d.x * d.z && 0.0 <= d.y * d.z by {
      if Valid(b) {
        MulNonneg(d.x, d.y);
        MulNonneg(d.x, d.z);
        MulNonneg(d.y, d.z);
      }
    }
    2.0 * (d.x * d.y + d.x * d.z + d.y * d.z)
  }

  /** A valid box enclosed by another has no larger surface area. */
  lemma SurfaceAreaMonotone(inner: Bounds3, outer: Bounds3)
    requires Valid(inner)
    requires Encloses(outer, inner)
    ensures SurfaceArea(inner) <= SurfaceArea(outer)
  {
    var d, e := Diagonal(inner), Diagonal(outer);
    assert 0.0 <= d.x <= e.x by { assert Get(d, X) <= Get(e, X); }
    assert 0.0 <= d.y <= e.y by { assert Get(d, Y) <= Get(e, Y); }
    assert 0.0 <= d.z <= e.z by { assert Get(d, Z) <= Get(e, Z); }
    FaceAreasMonotone(d.x, d.y, d.z, e.x, e.y, e.z);
  }

  /** The three face areas grow with the extents. */
  lemma FaceAreasMonotone(dx: real, dy: real, dz: real, ex: real, ey: real, ez: real)
    requires 0.0 <= dx <= ex && 0.0 <= dy <= ey && 0.0 <= dz <= ez
    ensures dx * dy + dx * dz + dy * dz <= ex * ey + ex * ez + ey * ez
  {
    MulMonotone(dx, dy, ex, ey);
    MulMonotone(dx, dz, ex, ez);
    MulMonotone(dy, dz, ey, ez);
  }

  /** `maximum_extent`: the axis along which the box is longest. Ties go to
      the later axis, because each comparison in the source is strict. */
  function MaximumExtent(b: Bounds3): (ax: Axis)
    ensures forall other :: Get(Diagonal(b), other) <= Get(Diagonal(b), ax)
    ensures forall other :: Get(Diagonal(b), other) == Get(Diagonal(b), ax) ==> Index(other) <= Index(ax)
  {
    var d := Diagonal(b);
    if d.x > d.y && d.x > d.z then X
    else if d.y > d.z then Y
    else Z
  }

  /** The two properties of `MaximumExtent` pin its result down: it is the
      last axis, in X-Y-Z order, of maximal extent. */
  lemma MaximumExtentUnique(b: Bounds3, ax: Axis)
    requires forall other :: Get(Diagonal(b), other) <= Get(Diagonal(b), ax)
    requires forall other :: Get(Diagonal(b), other) == Get(Diagonal(b), ax) ==> Index(other) <= Index(ax)
    ensures ax == MaximumExtent(b)
  {
    var m := MaximumExtent(b);
    assert Get(Diagonal(b), m) == Get(Diagonal(b), ax);
    assert Index(m) <= Index(ax) && Index(ax) <= Index(m);
  }

  /** The smallest box enclosing both arguments, axis by axis. This is the
      specification that the imperative `Union` is proved against. */
  function Join(a: Bounds3, b: Bounds3): Bounds3 {
    Bounds3(
      Vec3(Min(a.pmin.x, b.pmin.x), Min(a.pmin.y, b.pmin.y), Min(a.pmin.z, b.pmin.z)),
      Vec3(Max(a.pmax.x, b.pmax.x), Max(a.pmax.y, b.pmax.y), Max(a.pmax.z, b.pmax.z)))
  }

  /** The smallest box enclosing a box and a point. */
  function JoinPoint(b: Bounds3, p: Vec3): Bounds3 {
    Join(b, Bounds3(p, p))
  }

  /** `union`: copy `a`, then widen it axis by axis wherever `b` reaches
      further. */
  method Union(a: Bounds3, b: Bounds3) returns (r: Bounds3)
    ensures r == Join(a, b)
    ensures Encloses(r, a) && Encloses(r, b)
    ensures Valid(a) && Valid(b) ==> Valid(r)
    ensures Encloses(a, b) ==> r == a
  {
    r := a;
    for i := 0 to 3
      invariant forall ax :: Index(ax) < i ==>
                  Get(r.pmin, ax) == Min(Get(a.pmin, ax), Get(b.pmin, ax)) &&
                  Get(r.pmax, ax) == Max(Get(a.pmax, ax), Get(b.pmax, ax))
      invariant forall ax :: i <= Index(ax) ==>
                  Get(r.pmin, ax) == Get(a.pmin, ax) && Get(r.pmax, ax) == Get(a.pmax, ax)
    {
      var ax := Axes[i];
      if Get(b.pmin, ax) < Get(a.pmin, ax) {
        r := r.(pmin := Set(r.pmin, ax, Get(b.pmin, ax)));
      }
      if Get(b.pmax, ax) > Get(a.pmax, ax) {
        r := r.(pmax := Set(r.pmax, ax, Get(b.pmax, ax)));
      }
    }
    var j := Join(a, b);
    assert forall ax :: Get(r.pmin, ax) == Get(j.pmin, ax) && Get(r.pmax, ax) == Get(j.pmax, ax);
    Extensionality(r.pmin, j.pmin);
    Extensionality(r.pmax, j.pmax);
    if Encloses(a, b) {
      JoinAbsorbs(a, b);
    }
  }

  /** `union_vec`: copy the box, then widen it axis by axis wherever the
      point lies outside. */
  method UnionVec(bx: Bounds3, p: Vec3) returns (r: Bounds3)
    ensures r == JoinPoint(bx, p)
    ensures Contains(r, p) && Encloses(r, bx)
    ensures Valid(bx) ==> Valid(r)
    ensures Contains(bx, p) ==> r == bx
  {
    r := bx;
    for i := 0 to 3
      invariant forall ax :: Index(ax) < i ==>
                  Get(r.pmin, ax) == Min(Get(bx.pmin, ax), Get(p, ax)) &&
                  Get(r.pmax, ax) == Max(Get(bx.pmax, ax), Get(p, ax))
      invariant forall ax :: i <= Index(ax) ==>
                  Get(r.pmin, ax) == Get(bx.pmin, ax) && Get(r.pmax, ax) == Get(bx.pmax, ax)
    {
      var ax := Axes[i];
      if Get(p, ax) < Get(bx.pmin, ax) {
        r := r.(pmin := Set(r.pmin, ax, Get(p, ax)));
      }
      if Get(p, ax) > Get(bx.pmax, ax) {
        r := r.(pmax := Set(r.pmax, ax, Get(p, ax)));
      }
    }
    var j := JoinPoint(bx, p);
    assert forall ax :: Get(r.pmin, ax) == Get(j.pmin, ax) && Get(r.pmax, ax) == Get(j.pmax, ax);
    Extensionality(r.pmin, j.pmin);
    Extensionality(r.pmax, j.pmax);
    if Contains(bx, p) {
      JoinAbsorbs(bx, Bounds3(p, p));
    }
  }

  /** A box that already encloses `b` is left unchanged by joining `b`. */
  lemma JoinAbsorbs(a: Bounds3, b: Bounds3)
    requires Encloses(a, b)
    ensures Join(a, b) == a
  {
    assert Get(a.pmin, X) <= Get(b.pmin, X) && Get(b.pmax, X) <= Get(a.pmax, X);
    assert Get(a.pmin, Y) <= Get(b.pmin, Y) && Get(b.pmax, Y) <= Get(a.pmax, Y);
    assert Get(a.pmin, Z) <= Get(b.pmin, Z) && Get(b.pmax, Z) <= Get(a.pmax, Z);
  }

  lemma JoinCommutative(a: Bounds3, b: Bounds3)
    ensures Join(a, b) == Join(b, a)
  {
  }

  lemma JoinIdempotent(a: Bounds3)
    ensures Join(a, a) == a
  {
  }

  lemma JoinAssociative(a: Bounds3, b: Bounds3, c: Bounds3)
    ensures Join(Join(a, b), c) == Join(a, Join(b, c))
  {
  }

  /** `Join` is the least upper bound: every box enclosing both arguments
      encloses their join. */
  lemma JoinLeast(a: Bounds3, b: Bounds3, c: Bounds3)
    requires Encloses(c, a) && Encloses(c, b)
    ensures Encloses(c, Join(a, b))
  {
  }

  /** The union of two boxes has at least the surface area of each. */
  lemma JoinSurfaceArea(a: Bounds3, b: Bounds3)
    requires Valid(a) && Valid(b)
    ensures SurfaceArea(a) <= SurfaceArea(Join(a, b))
    ensures SurfaceArea(b) <= SurfaceArea(Join(a, b))
  {
    var j := Join(a, b);
    assert Encloses(j, a) && Encloses(j, b);
    SurfaceAreaMonotone(a, j);
    SurfaceAreaMonotone(b, j);
  }
}
