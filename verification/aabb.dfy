/** `AABB`: the older axis-aligned box type, whose only algebra is
    `surrounding_box`. */
module Aabb {
  import opened Vectors
  import Bounds

  /** `AABB::new` is the constructor; `min()` and `max()` are the fields. */
  datatype AABB = AABB(min: Vec3, max: Vec3)

  predicate Valid(b: AABB) {
    LessEq(b.min, b.max)
  }

  /** `outer` reaches at least as far as `inner` on every side. */
  predicate Encloses(outer: AABB, inner: AABB) {
    forall ax :: Get(outer.min, ax) <= Get(inner.min, ax) && Get(inner.max, ax) <= Get(outer.max, ax)
  }

  /** `surrounding_box`: the least box enclosing both arguments. */
  function SurroundingBox(box0: AABB, box1: AABB): (r: AABB)
    ensures Encloses(r, box0) && Encloses(r, box1)
    ensures forall c :: Encloses(c, box0) && Encloses(c, box1) ==> Encloses(c, r)
    ensures Valid(box0) && Valid(box1) ==> Valid(r)
  {
    var small := Vec3(Min(box0.min.x, box1.min.x), Min(box0.min.y, box1.min.y), Min(box0.min.z, box1.min.z));
    var big := Vec3(Max(box0.max.x, box1.max.x), Max(box0.max.y, box1.max.y), Max(box0.max.z, box1.max.z));
    AABB(small, big)
  }

  /** Boxes that enclose each other are equal. */
  lemma EnclosesAntisymmetric(a: AABB, b: AABB)
    requires Encloses(a, b) && Encloses(b, a)
    ensures a == b
  {
    Extensionality(a.min, b.min);
    Extensionality(a.max, b.max);
  }

  /** The contract of `SurroundingBox` determines its result: any box that
      encloses both arguments and is enclosed by every such box is it. */
  lemma SurroundingBoxUnique(box0: AABB, box1: AABB, r: AABB)
    requires Encloses(r, box0) && Encloses(r, box1)
    requires forall c :: Encloses(c, box0) && Encloses(c, box1) ==> Encloses(c, r)
    ensures r == SurroundingBox(box0, box1)
  {
    var s := SurroundingBox(box0, box1);
    assert Encloses(s, r);
    assert Encloses(r, s);
    EnclosesAntisymmetric(r, s);
  }

  lemma {:induction false} SurroundingBoxCommutative(box0: AABB, box1: AABB)
    ensures SurroundingBox(box0, box1) == SurroundingBox(box1, box0)
  {
    var s := SurroundingBox(box1, box0);
    SurroundingBoxUnique(box0, box1, s);
  }

  lemma SurroundingBoxIdempotent(b: AABB)
    ensures SurroundingBox(b, b) == b
  {
  }

  lemma SurroundingBoxAssociative(a: AABB, b: AABB, c: AABB)
    ensures SurroundingBox(SurroundingBox(a, b), c) == SurroundingBox(a, SurroundingBox(b, c))
  {
  }

  /** `surrounding_box` and `Bounds3::union` compute the same corners. */
  lemma SurroundingBoxIsUnion(box0: AABB, box1: AABB)
    ensures var u := Bounds.Join(Bounds.Bounds3(box0.min, box0.max), Bounds.Bounds3(box1.min, box1.max));
            SurroundingBox(box0, box1) == AABB(u.pmin, u.pmax)
  {
  }
}
