/** The `Model` interface: a sphere's ray intersection and the closest-hit
    scan over a list of models. The square root is a parameter, assumed only
    to be non-negative on positive inputs; the quadratic's numerics are
    otherwise exact. */
module Model {
  import opened Vectors
  import opened Options
  import Hitable

  /** The `Model` hit record: distance, point, outward normal, material. */
  datatype Hit = Hit(t: real, p: Vec3, normal: Vec3, material: Hitable.MaterialHandle)

  function HitT(h: Hit): real {
    h.t
  }

  datatype Sphere = Sphere(center: Vec3, radius: real, material: Hitable.MaterialHandle)

  ghost predicate SqrtNonneg(sqrt: real -> real) {
    forall x :: 0.0 < x ==> 0.0 <= sqrt(x)
  }

  /** The reduced quadratic `a t^2 + 2 b t + c = 0` whose roots are where
      the ray meets the sphere. */
  function QuadA(r: Ray): real {
    Dot(r.direction, r.direction)
  }

  function QuadB(s: Sphere, r: Ray): real {
    Dot(Sub(r.origin, s.center), r.direction)
  }

  function QuadC(s: Sphere, r: Ray): real {
    var oc := Sub(r.origin, s.center);
    Dot(oc, oc) - s.radius * s.radius
  }

  function Discriminant(s: Sphere, r: Ray): real {
    QuadB(s, r) * QuadB(s, r) - QuadA(r) * QuadC(s, r)
  }

  /** A positive discriminant rules out a zero direction and a zero radius,
      so the root and normal divisions are defined. */
  lemma PositiveDiscriminant(s: Sphere, r: Ray)
    requires Discriminant(s, r) > 0.0
    ensures QuadA(r) > 0.0 && s.radius != 0.0
  {
    var d, oc := r.direction, Sub(r.origin, s.center);
    var a, b := QuadA(r), QuadB(s, r);
    CauchySchwarz(d, oc);
    assert b * b <= a * Dot(oc, oc);
    SquareNonneg(d.x);
    SquareNonneg(d.y);
    SquareNonneg(d.z);
    assert 0.0 <= a;
  }

  /** `(d . o)^2 <= |d|^2 |o|^2`, from Lagrange's identity. */
  lemma CauchySchwarz(d: Vec3, o: Vec3)
    ensures Dot(d, o) * Dot(d, o) <= Dot(d, d) * Dot(o, o)
  {
    Lagrange(d.x, d.y, d.z, o.x, o.y, o.z);
    SquareNonneg(d.y * o.z - d.z * o.y);
    SquareNonneg(d.z * o.x - d.x * o.z);
    SquareNonneg(d.x * o.y - d.y * o.x);
  }

  /** Lagrange's identity in three dimensions:
      `|a|^2 |b|^2 - (a . b)^2 = |a x b|^2`, expanded one row at a time. */
  lemma Lagrange(a1: real, a2: real, a3: real, b1: real, b2: real, b3: real)
    ensures (a1 * a1 + a2 * a2 + a3 * a3) * (b1 * b1 + b2 * b2 + b3 * b3)
              - (a1 * b1 + a2 * b2 + a3 * b3) * (a1 * b1 + a2 * b2 + a3 * b3)
            == (a2 * b3 - a3 * b2) * (a2 * b3 - a3 * b2)
             + (a3 * b1 - a1 * b3) * (a3 * b1 - a1 * b3)
             + (a1 * b2 - a2 * b1) * (a1 * b2 - a2 * b1)
  {
    var nb := b1 * b1 + b2 * b2 + b3 * b3;
    // |a|^2 |b|^2 as nine squared products
    DistribRight(a1 * a1, a2 * a2, a3 * a3, nb);
    DistribLeft(a1 * a1, b1 * b1, b2 * b2, b3 * b3);
    DistribLeft(a2 * a2, b1 * b1, b2 * b2, b3 * b3);
    DistribLeft(a3 * a3, b1 * b1, b2 * b2, b3 * b3);
    SquareProduct(a1, b1); SquareProduct(a1, b2); SquareProduct(a1, b3);
    SquareProduct(a2, b1); SquareProduct(a2, b2); SquareProduct(a2, b3);
    SquareProduct(a3, b1); SquareProduct(a3, b2); SquareProduct(a3, b3);
    // (a . b)^2 as three squares and three cross terms
    SquareSum3(a1 * b1, a2 * b2, a3 * b3);
    ProductSwap(a1, b1, a2, b2);
    ProductSwap(a1, b1, a3, b3);
    ProductSwap(a2, b2, a3, b3);
    // the three components of a x b, squared
    SquareDiff(a2 * b3, a3 * b2);
    SquareDiff(a3 * b1, a1 * b3);
    SquareDiff(a1 * b2, a2 * b1);
  }

  lemma DistribLeft(k: real, x: real, y: real, z: real)
    ensures k * (x + y + z) == k * x + k * y + k * z
  {
  }

  lemma DistribRight(x: real, y: real, z: real, k: real)
    ensures (x + y + z) * k == x * k + y * k + z * k
  {
  }

  lemma SquareProduct(a: real, b: real)
    ensures (a * a) * (b * b) == (a * b) * (a * b)
  {
  }

  /** `(a1 b1)(a2 b2) == (a1 b2)(a2 b1)`: the cross terms of `(a . b)^2` and
      of `|a x b|^2` agree. */
  lemma ProductSwap(a1: real, b1: real, a2: real, b2: real)
    ensures (a1 * b1) * (a2 * b2) == (a1 * b2) * (a2 * b1)
  {
  }

  lemma SquareSum3(x: real, y: real, z: real)
    ensures (x + y + z) * (x + y + z) == x * x + y * y + z * z + 2.0 * (x * y) + 2.0 * (x * z) + 2.0 * (y * z)
  {
  }

  lemma SquareDiff(p: real, q: real)
    ensures (p - q) * (p - q) == p * p - 2.0 * (p * q) + q * q
  {
  }

  /** The nearer and the farther root. */
  function NearRoot(s: Sphere, r: Ray, sqrt: real -> real): real
    requires Discriminant(s, r) > 0.0
  {
    PositiveDiscriminant(s, r);
    (-QuadB(s, r) - sqrt(Discriminant(s, r))) / QuadA(r)
  }

  function FarRoot(s: Sphere, r: Ray, sqrt: real -> real): real
    requires Discriminant(s, r) > 0.0
  {
    PositiveDiscriminant(s, r);
    (-QuadB(s, r) + sqrt(Discriminant(s, r))) / QuadA(r)
  }

  /** The root `(-b - sqrt(disc)) / a`, tried first, is never the farther. */
  lemma NearRootFirst(s: Sphere, r: Ray, sqrt: real -> real)
    requires SqrtNonneg(sqrt)
    requires Discriminant(s, r) > 0.0
    ensures NearRoot(s, r, sqrt) <= FarRoot(s, r, sqrt)
  {
    PositiveDiscriminant(s, r);
    var a, b, q := QuadA(r), QuadB(s, r), sqrt(Discriminant(s, r));
    assert FarRoot(s, r, sqrt) - NearRoot(s, r, sqrt) == (2.0 * q) / a;
  }

  predicate InRange(t: real) {
    Hitable.TMin < t < Hitable.TMax
  }

  /** The record for a hit at distance `t`. */
  function HitAt(s: Sphere, r: Ray, t: real): Hit
    requires s.radius != 0.0
  {
    var p := PointAt(r, t);
    Hit(t, p, Scale(1.0 / s.radius, Sub(p, s.center)), s.material)
  }

  /** `Sphere::hit`: no hit unless the discriminant is positive; then the
      nearer root if it lies in `(T_MIN, T_MAX)`, else the farther root if it
      does, else no hit. */
  function SphereHit(s: Sphere, r: Ray, sqrt: real -> real): (h: Option<Hit>)
    ensures h.Some? ==> InRange(h.value.t)
    ensures Discriminant(s, r) <= 0.0 ==> h == None
    ensures h.Some? ==> h.value.material == s.material && h.value.p == PointAt(r, h.value.t)
    ensures Discriminant(s, r) > 0.0 && InRange(NearRoot(s, r, sqrt)) ==>
              h.Some? && h.value.t == NearRoot(s, r, sqrt)
    ensures Discriminant(s, r) > 0.0 && !InRange(NearRoot(s, r, sqrt)) ==>
              (h.Some? <==> InRange(FarRoot(s, r, sqrt))) &&
              (h.Some? ==> h.value.t == FarRoot(s, r, sqrt))
  {
    var disc := Discriminant(s, r);
    if disc > 0.0 then
      PositiveDiscriminant(s, r);
      var t := NearRoot(s, r, sqrt);
      if t < Hitable.TMax && t > Hitable.TMin then Some(HitAt(s, r, t))
      else
        var t' := FarRoot(s, r, sqrt);
        if t' < Hitable.TMax && t' > Hitable.TMin then Some(HitAt(s, r, t'))
        else None
    else None
  }

  /** Whenever the sphere reports a hit, no root in range is nearer. */
  lemma SphereHitNearest(s: Sphere, r: Ray, sqrt: real -> real)
    requires SqrtNonneg(sqrt)
    requires SphereHit(s, r, sqrt).Some?
    ensures forall t :: (t == NearRoot(s, r, sqrt) || t == FarRoot(s, r, sqrt)) && InRange(t) ==>
              SphereHit(s, r, sqrt).value.t <= t
  {
    NearRootFirst(s, r, sqrt);
  }

  /** `impl Model for Vec<Box<Model>>::hit`, the same strictly-nearer scan as
      the `Hitable` list, over `Model` hit records. */
  method ListHit(hits: seq<Option<Hit>>) returns (rec: Option<Hit>)
    ensures |hits| == 0 ==> rec == None
    ensures rec.Some? <==> exists i :: 0 <= i < |hits| && hits[i].Some? && hits[i].value.t < Hitable.F64Max
    ensures rec.Some? ==> exists i :: Hitable.IsFirstClosest(hits, HitT, i) && rec == hits[i]
  {
    rec := Hitable.ClosestHit(hits, HitT);
  }

  /** What every sphere of a scene reports for one ray, in list order. */
  ghost function SphereHits(spheres: seq<Sphere>, r: Ray, sqrt: real -> real): (hits: seq<Option<Hit>>)
    ensures |hits| == |spheres|
    ensures forall i :: 0 <= i < |spheres| ==> hits[i] == SphereHit(spheres[i], r, sqrt)
  {
    seq(|spheres|, i requires 0 <= i < |spheres| => SphereHit(spheres[i], r, sqrt))
  }

  /** Over a list of spheres the scan finds a hit exactly when some sphere
      reports one, and that hit lies in `(T_MIN, T_MAX)` and is the first
      sphere's hit of least distance. */
  lemma SpheresClosestHit(spheres: seq<Sphere>, r: Ray, sqrt: real -> real)
    ensures var hits := SphereHits(spheres, r, sqrt);
            var rec := Hitable.Scan(hits, HitT);
            && (rec.Some? <==> exists i :: 0 <= i < |spheres| && SphereHit(spheres[i], r, sqrt).Some?)
            && (rec.Some? ==> InRange(rec.value.t))
            && (rec.Some? ==> exists i :: Hitable.IsFirstClosest(hits, HitT, i) && rec == hits[i])
  {
    var hits := SphereHits(spheres, r, sqrt);
    Hitable.ScanSomeIffAnyHit(hits, HitT);
    Hitable.ScanFirstClosest(hits, HitT);
    var rec := Hitable.Scan(hits, HitT);
    if rec.Some? {
      var i :| Hitable.IsFirstClosest(hits, HitT, i) && rec == hits[i];
      assert SphereHit(spheres[i], r, sqrt).Some?;
    }
  }
}
