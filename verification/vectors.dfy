/** Three-component vectors over exact reals, the coordinate type every other
    module builds on. Floating-point rounding, NaN and signed zero are not part
    of this model. */
module Vectors {

  datatype Vec3 = Vec3(x: real, y: real, z: real)

  /** The axis selector used by `get_axis` / `set_axis`. */
  datatype Axis = X | Y | Z

  /** The axes in the order the source iterates over them. */
  const Axes: seq<Axis> := [X, Y, Z]

  function Index(ax: Axis): (i: nat)
    ensures i < 3 && Axes[i] == ax
  {
    match ax
    case X => 0
    case Y => 1
    case Z => 2
  }

  function Get(v: Vec3, ax: Axis): real {
    match ax
    case X => v.x
    case Y => v.y
    case Z => v.z
  }

  /** Replace one coordinate; the other two are kept. */
  function Set(v: Vec3, ax: Axis, c: real): (w: Vec3)
    ensures Get(w, ax) == c
    ensures forall other :: other != ax ==> Get(w, other) == Get(v, other)
  {
    match ax
    case X => v.(x := c)
    case Y => v.(y := c)
    case Z => v.(z := c)
  }

  /** Two vectors are equal exactly when they agree on every axis. */
  lemma Extensionality(v: Vec3, w: Vec3)
    requires forall ax :: Get(v, ax) == Get(w, ax)
    ensures v == w
  {
    assert Get(v, X) == Get(w, X) && Get(v, Y) == Get(w, Y) && Get(v, Z) == Get(w, Z);
  }

  function Add(a: Vec3, b: Vec3): Vec3 {
    Vec3(a.x + b.x, a.y + b.y, a.z + b.z)
  }

  function Sub(a: Vec3, b: Vec3): Vec3 {
    Vec3(a.x - b.x, a.y - b.y, a.z - b.z)
  }

  function Scale(k: real, v: Vec3): Vec3 {
    Vec3(k * v.x, k * v.y, k * v.z)
  }

  function Dot(a: Vec3, b: Vec3): real {
    a.x * b.x + a.y * b.y + a.z * b.z
  }

  function Min(a: real, b: real): real {
    if a <= b then a else b
  }

  function Max(a: real, b: real): real {
    if a >= b then a else b
  }

  lemma MulNonneg(x: real, y: real)
    requires 0.0 <= x && 0.0 <= y
    ensures 0.0 <= x * y
  {
  }

  lemma SquareNonneg(x: real)
    ensures 0.0 <= x * x
  {
    if x < 0.0 {
      assert x * x == (-x) * (-x);
      MulNonneg(-x, -x);
    }
  }

  /** Products of non-negative factors grow with their factors. */
  lemma MulMonotone(x: real, y: real, x': real, y': real)
    requires 0.0 <= x <= x' && 0.0 <= y <= y'
    ensures x * y <= x' * y'
  {
    assert x' * y' - x * y == (x' - x) * y' + x * (y' - y);
    MulNonneg(x' - x, y');
    MulNonneg(x, y' - y);
  }

  /** `a <= b` on every axis. */
  predicate LessEq(a: Vec3, b: Vec3) {
    a.x <= b.x && a.y <= b.y && a.z <= b.z
  }

  /** A ray: `origin + t * direction`. The direction need not be unit length. */
  datatype Ray = Ray(origin: Vec3, direction: Vec3)

  function PointAt(r: Ray, t: real): Vec3 {
    Add(r.origin, Scale(t, r.direction))
  }
}
