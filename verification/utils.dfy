/** Small numeric helpers: a three-way clamp, a bisection search in the style
    of C++ `std::upper_bound`, and linear interpolation. */
module Utils {
  import opened Vectors

  const I32Min: int := -0x8000_0000
  const I32Max: int := 0x7fff_ffff

  predicate InI32(x: int) {
    I32Min <= x <= I32Max
  }

  /** Two's-complement wrap-around of a mathematical integer into `i32`. */
  function WrapI32(x: int): (w: int)
    ensures InI32(w)
    ensures InI32(x) ==> w == x
  {
    (x - I32Min) % 0x1_0000_0000 + I32Min
  }

  /** Clamp `val` to `[low, high]`. The lower bound is tested first, so on an
      inverted range (`low > high`) a value below `low` still yields `low`. */
  function ClampT(val: int, low: int, high: int): (r: int)
    ensures val < low ==> r == low
    ensures low <= val && high < val ==> r == high
    ensures low <= val <= high ==> r == val
    ensures low <= high ==> low <= r <= high
    // within a proper range the result is the point of [low, high] nearest to val
    ensures low <= high ==> forall y :: low <= y <= high ==> Dist(r, val) <= Dist(y, val)
  {
    if val < low then low
    else if val > high then high
    else val
  }

  function Dist(a: int, b: int): nat {
    if a <= b then b - a else a - b
  }

  /** Clamping is idempotent on a proper range. */
  lemma ClampIdempotent(val: int, low: int, high: int)
    requires low <= high
    ensures ClampT(ClampT(val, low, high), low, high) == ClampT(val, low, high)
  {
  }

  /** `pred` may be asked about every index of `[0, size)`. */
  ghost predicate PredDefined(pred: int --> bool, size: int) {
    forall i :: 0 <= i < size ==> pred.requires(i)
  }

  /** `pred` holds on a prefix of `[0, size)` and fails on the rest. */
  ghost predicate Partitioned(pred: int --> bool, size: int)
    requires PredDefined(pred, size)
  {
    forall i, j :: 0 <= i <= j < size && pred(j) ==> pred(i)
  }

  /** `p` separates an index where `pred` holds (just below) from one where it
      fails (at `p`); the ends of `[0, size)` count as separators. */
  ghost predicate IsBoundary(pred: int --> bool, size: int, p: int)
    requires PredDefined(pred, size)
  {
    if size <= 0 then p == 0
    else 0 <= p <= size && (p == 0 || pred(p - 1)) && (p == size || !pred(p))
  }

  /** The first index of `[0, size)` where `pred` fails, or `size` (0 for an
      empty range) when there is none; a linear reference definition. */
  ghost function PartitionPoint(pred: int --> bool, size: int): int
    requires PredDefined(pred, size)
  {
    if size <= 0 then 0 else FirstFailFrom(pred, size, 0)
  }

  ghost function FirstFailFrom(pred: int --> bool, size: int, i: int): (p: int)
    requires PredDefined(pred, size)
    requires 0 <= i <= size
    ensures i <= p <= size
    ensures forall k :: i <= k < p ==> pred(k)
    ensures p < size ==> !pred(p)
    decreases size - i
  {
    if i == size || !pred(i) then i else FirstFailFrom(pred, size, i + 1)
  }

  /** For a partitioned predicate the boundary is unique: it is the first
      index where the predicate fails. */
  lemma BoundaryIsPartitionPoint(pred: int --> bool, size: int, p: int)
    requires PredDefined(pred, size)
    requires Partitioned(pred, size)
    requires IsBoundary(pred, size, p)
    ensures p == PartitionPoint(pred, size)
  {
    if size > 0 {
      var q := FirstFailFrom(pred, size, 0);
      assert p <= q;
    }
  }

  /** `find_interval`: bisect `[0, size)` for the boundary of `pred`, then
      clamp the index just below it into `[0, size - 2]`. `pred` is only ever
      asked about indices in `[0, size)`, which its domain enforces. */
  method FindInterval(size: int, pred: int --> bool) returns (r: int)
    requires InI32(size)
    requires PredDefined(pred, size)
    ensures InI32(r)
    ensures size >= 2 ==> 0 <= r <= size - 2
    ensures size <= 0 ==> r == 0
    ensures size == 1 ==> r == if pred(0) then -1 else 0
    ensures exists p :: IsBoundary(pred, size, p) && r == ClampT(p - 1, 0, WrapI32(size - 2))
    ensures Partitioned(pred, size) ==>
              r == ClampT(PartitionPoint(pred, size) - 1, 0, WrapI32(size - 2))
  {
    var first := 0;
    var len := size;
    while len > 0
      invariant size <= 0 ==> first == 0 && len == size
      invariant size > 0 ==> 0 <= first && 0 <= len && first + len <= size
      invariant first == 0 || pred(first - 1)
      invariant size > 0 && first + len < size ==> !pred(first + len)
      decreases len
    {
      // `len >> 1` on a positive `len`
      var half := len / 2;
      var middle := first + half;
      assert InI32(middle) && InI32(middle + 1);
      if pred(middle) {
        first := middle + 1;
        len := len - (half + 1);
      } else {
        len := half;
      }
    }
    assert IsBoundary(pred, size, first);
    r := ClampT(first - 1, 0, WrapI32(size - 2));
    if Partitioned(pred, size) {
      BoundaryIsPartitionPoint(pred, size, first);
    }
  }

  /** `lerp`: `a * (1 - t) + b * t`. */
  function Lerp(t: real, a: real, b: real): (r: real)
    ensures t == 0.0 ==> r == a
    ensures t == 1.0 ==> r == b
  {
    a * (1.0 - t) + b * t
  }

  /** For `t` in `[0, 1]` the interpolant lies between the two end values. */
  lemma LerpBetween(t: real, a: real, b: real)
    requires 0.0 <= t <= 1.0
    ensures Min(a, b) <= Lerp(t, a, b) <= Max(a, b)
  {
    var r := Lerp(t, a, b);
    assert r - a == t * (b - a) && b - r == (1.0 - t) * (b - a);
    if a <= b {
      MulNonneg(t, b - a);
      MulNonneg(1.0 - t, b - a);
    } else {
      MulNonneg(t, a - b);
      MulNonneg(1.0 - t, a - b);
    }
  }
}
