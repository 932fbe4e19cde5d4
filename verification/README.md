# rcpt geometry core in Dafny

This project models the discrete, comparison-driven core of the `rcpt` path
tracer:

- the numeric helpers of `src/utils.rs`: the three-way clamp `clamp_t`, the
  bisection `find_interval` that behaves like C++ `std::upper_bound`, and `lerp`;
- the axis-aligned box algebra of `Bounds3` (`src/bounds.rs`) and of `AABB`
  (`src/aabb.rs`): diagonal, surface area, axis of maximum extent, union with a
  box or a point, and `surrounding_box`;
- the closest-hit scan of a list of objects (`src/hitable.rs`, repeated for
  `Model` in `src/model.rs`);
- the root selection of `Sphere::hit` (`src/model.rs`).

Coordinates are exact `real`s (module `Vectors`). `Bounds3::new` and `AABB::new`
are the datatype constructors; `AABB::min()` and `AABB::max()` are its fields;
`get_axis`/`set_axis` are `Vectors.Get`/`Vectors.Set` over an `Axis` selector.

Modules follow the source files: `Utils` (utils.rs), `Bounds` (bounds.rs),
`Aabb` (aabb.rs), `Hitable` (hitable.rs), `Model` (model.rs). `Vectors` holds
the vector and ray values and `Options` the `Option` type.

How each operation is rendered:

- `find_interval` and the two `union` operations update local variables in a
  loop in the source. They are methods with loops here, proved against pure
  specifications: `Utils.PartitionPoint` and `Utils.IsBoundary` for the first,
  `Bounds.Join` and `Bounds.JoinPoint` for the other two.
- The closest-hit scan is one loop method, `Hitable.ClosestHit`. It is generic
  over the hit record and takes a function that reads the distance `t`.
  `Hitable.ListHit` applies it to the `Hitable` record (`Vec<Box<Hitable>>`),
  and `Model.ListHit` to the `Model` record. The scan gets what
  each object reported for the ray, as a `seq<Option<Hit>>` in list order. Its
  left-fold specification is `Hitable.Scan`.
- `find_interval` takes its predicate as a partial function. The predicate's
  domain need only include `[0, size)`, so verification shows that the predicate is
  only asked about indices in that range. `size` is an `i32`. The loop's
  arithmetic is shown to stay in range. `size - 2` is written as a
  two's-complement wrap.
- `Sphere::hit` receives the square root as a parameter. The only assumption
  about it is that it is non-negative on positive inputs. A positive
  discriminant is proved to imply a non-zero direction and a non-zero radius
  (by Cauchy–Schwarz), so both divisions in the source are defined.

## Model

| member | source | states |
|---|---|---|
| `Utils.ClampT` | src/utils.rs:4-17 | below `low` gives `low`; above `high` (and not below `low`) gives `high`; otherwise `val`; on a proper range the result lies in `[low, high]` and is the point of that range nearest to `val` |
| `Utils.ClampIdempotent` | src/utils.rs:4-17 | clamping twice to a proper range equals clamping once |
| `Utils.FindInterval` | src/utils.rs:20-38 | the bisection ends on a boundary of `pred` (true just below, false at it) and returns that index minus one, clamped to `[0, size-2]`; for a predicate true on a prefix this is the first index where it fails, as `std::upper_bound`; the result is in `[0, size-2]` for `size >= 2`, 0 for `size <= 0`, and -1 or 0 for `size == 1`; `pred` is only called on `[0, size)` and no `i32` overflow occurs in the loop |
| `Utils.BoundaryIsPartitionPoint` | src/utils.rs:19-37 | for a predicate true on a prefix, the boundary the bisection can end on is unique and equals the linear first-failure index |
| `Utils.Lerp` | src/utils.rs:41-51 | `lerp(0, a, b) == a` and `lerp(1, a, b) == b` |
| `Utils.LerpBetween` | src/utils.rs:49-50 | for `t` in `[0, 1]` the interpolant lies between `a` and `b` |
| `Bounds.Diagonal` | src/bounds.rs:13-15 | each coordinate is the box's extent `pmax - pmin` on that axis; all three are non-negative exactly when the box is valid |
| `Bounds.SurfaceArea` | src/bounds.rs:16-19 | non-negative for a valid box and zero for a point box |
| `Bounds.SurfaceAreaMonotone` | src/bounds.rs:16-19 | a valid box enclosed in another has no larger surface area |
| `Bounds.MaximumExtent` | src/bounds.rs:20-29 | the returned axis has maximal extent, and every other axis of equal extent comes before it (ties go to the later axis) |
| `Bounds.MaximumExtentUnique` | src/bounds.rs:20-29 | those two properties determine the axis: X only when `dx` strictly exceeds `dy` and `dz`, else Y when `dy > dz`, else Z |
| `Bounds.Union` | src/bounds.rs:31-44 | result is the componentwise min of the `pmin`s and max of the `pmax`s; it encloses both boxes, is valid when both are, and is `a` unchanged when `a` already encloses `b` |
| `Bounds.UnionVec` | src/bounds.rs:46-60 | result is the box widened to the point; it contains the point and encloses the box, is valid when the box is, and is the box unchanged when the point is already inside |
| `Bounds.JoinAbsorbs` | src/bounds.rs:31-44 | joining a box that is already enclosed changes nothing |
| `Bounds.JoinCommutative` | src/bounds.rs:31-44 | `union(a, b) == union(b, a)` |
| `Bounds.JoinIdempotent` | src/bounds.rs:31-44 | `union(a, a) == a` |
| `Bounds.JoinAssociative` | src/bounds.rs:31-44 | union is associative |
| `Bounds.JoinLeast` | src/bounds.rs:31-44 | every box that encloses both arguments encloses their union |
| `Bounds.JoinSurfaceArea` | src/bounds.rs:31-44 | for valid boxes the union's surface area is at least that of each argument |
| `Aabb.SurroundingBox` | src/aabb.rs:34-47 | encloses both boxes, is enclosed by every box that encloses both, and is valid when both are |
| `Aabb.SurroundingBoxUnique` | src/aabb.rs:34-47 | any box with the least-enclosing property is the surrounding box |
| `Aabb.SurroundingBoxCommutative` | src/aabb.rs:34-47 | argument order does not matter |
| `Aabb.SurroundingBoxIdempotent` | src/aabb.rs:34-47 | a box surrounded with itself is itself |
| `Aabb.SurroundingBoxAssociative` | src/aabb.rs:34-47 | surrounding is associative |
| `Aabb.SurroundingBoxIsUnion` | src/aabb.rs:34-47 | its corners are those of `Bounds3::union` of the same corners |
| `Hitable.ClosestHit` | src/hitable.rs:26-42 | the loop (keeping `closest_so_far == rec.t`) computes the left-fold `Scan`; an empty list gives `None`; `Some` exactly when some item hit below `f64::MAX`; the record returned is, unmodified, the hit of an item that is no farther than any other hit and strictly nearer than every earlier one |
| `Hitable.ListHit` | src/hitable.rs:26-42 | the `Vec<Box<Hitable>>` scan over `Hitable` records: `None` for an empty list or when no item hit, otherwise the first item's hit of least distance, unmodified |
| `Hitable.ScanSomeIffAnyHit` | src/hitable.rs:29-37 | the fold keeps a record exactly when some item hit below `f64::MAX`, and the kept record's `t` is below `f64::MAX` |
| `Hitable.ScanFirstClosest` | src/hitable.rs:29-37 | the kept record is, unmodified, the hit of the first item whose distance is least (strict `<` keeps the earliest on ties) |
| `Model.ListHit` | src/model.rs:64-81 | the `Model` list scan: `None` for an empty list or when no item hit, otherwise the first item's hit of least distance, unmodified |
| `Model.PositiveDiscriminant` | src/model.rs:30-37 | a positive discriminant implies a non-zero ray direction and a non-zero radius |
| `Model.NearRootFirst` | src/model.rs:37-48 | the root `(-b - sqrt(disc)) / a`, tried first, is never farther than `(-b + sqrt(disc)) / a` |
| `Model.SphereHit` | src/model.rs:30-60 | every hit has `T_MIN < t < T_MAX`; a discriminant `<= 0` (the tangent case included) gives no hit; the hit carries the sphere's own material and lies at `origin + t * direction`; the nearer root is returned when in range, otherwise the farther root exactly when it is in range |
| `Model.SphereHitNearest` | src/model.rs:37-57 | no in-range root is nearer than the reported hit |
| `Model.SpheresClosestHit` | src/model.rs:64-81 | over a list of spheres the scan finds a hit exactly when some sphere reports one; the hit lies in `(T_MIN, T_MAX)` and is the first sphere's hit of least distance |

## Left out

- The bounding-volume hierarchy (`src/bvh_accel.rs`) is an unfinished stub in this version of the repository, with no build, flatten or traversal. There is nothing to model. Its enclosure, permutation and oracle-equivalence properties are therefore absent.
- `Bounds3::gamma`, `Bounds3::intersect_p` and `AABB::hit`: ray/slab tests whose point is floating-point behaviour (reciprocal directions, infinities, epsilon inflation of the far bound).
- Floating point in general. Coordinates are exact reals, so NaN, signed zero, infinities and rounding are absent. In particular `f64::min`/`max` and the strict comparisons in `union` agree with `Min`/`Max` only because reals are totally ordered.
- `Utils.ClampT`: modelled on integers, the only instantiation `find_interval` uses; other instantiations of the generic `clamp_t` (such as `f64`) are not modelled.
- `Utils.FindInterval`: `size - 2` uses the release-build wrap-around; a debug build would panic on that overflow when `size < i32::MIN + 2`.
- `Utils.Lerp`: modelled on scalars; the generic `lerp` also applies to vector types, which is not modelled.
- `Model.SphereHit`: the square root is a parameter. Only `NearRootFirst` and `SphereHitNearest` assume anything about it: that it is non-negative on positive inputs. The model does not state that its square is the discriminant. The normal `(p - center) / radius` is computed exactly, with no unit-length claim.
- The objects' own `hit` calls inside the closest-hit scans are not evaluated. The scans receive each object's answer for the ray. Ray/object intersection exists here only for the sphere.
- `src/sphere.rs` is an older copy of the sphere intersection and is not part of this model. Also not part of this model: `src/camera.rs` (random lens sampling), `src/materials.rs` and `src/material.rs` (random scattering), `src/main.rs` (the radiance estimator, threading and image output), `src/scenes.rs` (scene data), `src/transform.rs` and `src/cgmath/quaternion.rs` (rotations), and `src/primitive.rs` (interface declarations only).
