/** The hit record of the `Hitable` interface and the closest-hit scan over a
    list of objects. Each object's own `hit` is not evaluated here: the scan
    receives, in list order, what every object reported for the ray. */
module Hitable {
  import opened Vectors
  import opened Options

  /** `f64::MAX`, exactly: (2 - 2^-52) * 2^1023. */
  const F64Max: real := 179769313486231570814527423731704356798070567525844996598917476803157260780028538760589558632766878171540458953514382464234321326889464182768467546703537516986049910576551282076245490090389328944075868508455133942304583236903222948165808559332123348274797826204144723168738177180919299881250404026184124858368.0

  /** Accepted hit distances lie strictly between these (shadow-acne guard
      below, largest finite distance above). */
  const TMin: real := 0.0001
  const TMax: real := F64Max

  /** Identity of the shared, read-only material a hit refers to. */
  type MaterialHandle = nat

  datatype Hit = Hit(t: real, p: Vec3, u: real, v: real, normal: Vec3, material: MaterialHandle)

  function HitT(h: Hit): real {
    h.t
  }

  /** The distance a new hit must beat: that of the record kept so far, or
      `f64::MAX` while there is none. */
  function Bound<H>(rec: Option<H>, tOf: H -> real): real {
    if rec.None? then F64Max else tOf(rec.value)
  }

  /** What the scan keeps after reading `hits` left to right: a hit replaces
      the record kept so far only when it is strictly nearer. */
  function Scan<H>(hits: seq<Option<H>>, tOf: H -> real): Option<H> {
    if |hits| == 0 then None
    else
      var prev := Scan(hits[..|hits| - 1], tOf);
      var last := hits[|hits| - 1];
      if last.Some? && tOf(last.value) < Bound(prev, tOf) then last else prev
  }

  /** Item `i` reported a hit below `f64::MAX` that is at least as near as
      every other reported hit and strictly nearer than every earlier one. */
  ghost predicate IsFirstClosest<H>(hits: seq<Option<H>>, tOf: H -> real, i: int) {
    && 0 <= i < |hits|
    && hits[i].Some?
    && tOf(hits[i].value) < F64Max
    && (forall j :: 0 <= j < |hits| && hits[j].Some? ==> tOf(hits[i].value) <= tOf(hits[j].value))
    && (forall j :: 0 <= j < i && hits[j].Some? ==> tOf(hits[i].value) < tOf(hits[j].value))
  }

  /** Some item reported a hit nearer than `f64::MAX`. */
  ghost predicate AnyHit<H>(hits: seq<Option<H>>, tOf: H -> real) {
    exists i :: 0 <= i < |hits| && hits[i].Some? && tOf(hits[i].value) < F64Max
  }

  /** The scan keeps a record exactly when some item hit below `f64::MAX`. */
  lemma {:induction false} ScanSomeIffAnyHit<H>(hits: seq<Option<H>>, tOf: H -> real)
    ensures Scan(hits, tOf).Some? <==> AnyHit(hits, tOf)
    ensures Scan(hits, tOf).Some? ==> tOf(Scan(hits, tOf).value) < F64Max
    decreases |hits|
  {
    if |hits| > 0 {
      var pre := hits[..|hits| - 1];
      ScanSomeIffAnyHit(pre, tOf);
      assert forall j :: 0 <= j < |pre| ==> pre[j] == hits[j];
    }
  }

  /** The record the scan keeps is, unmodified, the first item's hit of
      least distance. */
  lemma {:induction false} ScanFirstClosest<H>(hits: seq<Option<H>>, tOf: H -> real)
    ensures Scan(hits, tOf).Some? ==>
              exists i :: IsFirstClosest(hits, tOf, i) && Scan(hits, tOf) == hits[i]
    decreases |hits|
  {
    if |hits| > 0 {
      var n := |hits|;
      var pre := hits[..n - 1];
      var prev := Scan(pre, tOf);
      var last := hits[n - 1];
      ScanFirstClosest(pre, tOf);
      ScanSomeIffAnyHit(pre, tOf);
      assert forall j :: 0 <= j < n - 1 ==> pre[j] == hits[j];
      if last.Some? && tOf(last.value) < Bound(prev, tOf) {
        if prev.Some? {
          var i :| IsFirstClosest(pre, tOf, i) && prev == pre[i];
          assert IsFirstClosest(hits, tOf, n - 1);
        } else {
          assert IsFirstClosest(hits, tOf, n - 1);
        }
      } else if prev.Some? {
        var i :| IsFirstClosest(pre, tOf, i) && prev == pre[i];
        assert IsFirstClosest(hits, tOf, i);
      }
    }
  }

  /** `impl Hitable for Vec<Box<Hitable>>::hit`: keep the strictly nearest
      hit, starting from `f64::MAX`. */
  method ClosestHit<H>(hits: seq<Option<H>>, tOf: H -> real) returns (rec: Option<H>)
    ensures rec == Scan(hits, tOf)
    ensures |hits| == 0 ==> rec == None
    ensures rec.Some? <==> AnyHit(hits, tOf)
    ensures rec.Some? ==> exists i :: IsFirstClosest(hits, tOf, i) && rec == hits[i]
  {
    rec := None;
    var closestSoFar := F64Max;
    for i := 0 to |hits|
      invariant rec == Scan(hits[..i], tOf)
      invariant closestSoFar == Bound(rec, tOf)
    {
      assert hits[..i + 1][..i] == hits[..i];
      match hits[i]
      case Some(tempRec) =>
        if tOf(tempRec) < closestSoFar {
          closestSoFar := tOf(tempRec);
          rec := Some(tempRec);
        }
      case None =>
    }
    assert hits[..|hits|] == hits;
    ScanSomeIffAnyHit(hits, tOf);
    ScanFirstClosest(hits, tOf);
  }

  /** The scan applied to `Vec<Box<Hitable>>`, over `Hitable` hit records. */
  method ListHit(hits: seq<Option<Hit>>) returns (rec: Option<Hit>)
    ensures |hits| == 0 ==> rec == None
    ensures rec.Some? <==> exists i :: 0 <= i < |hits| && hits[i].Some? && hits[i].value.t < F64Max
    ensures rec.Some? ==> exists i :: IsFirstClosest(hits, HitT, i) && rec == hits[i]
  {
    rec := ClosestHit(hits, HitT);
  }
}
