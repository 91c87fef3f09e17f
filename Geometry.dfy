/** Axis-aligned bounding boxes, as the collision code uses them.
    A box is given by its minimum and maximum corner; two boxes intersect when
    their closed intervals overlap on all three axes. */
module Geometry {

  datatype Vec3 = Vec3(x: real, y: real, z: real)

  datatype AABB = AABB(min: Vec3, max: Vec3)

  /** Closed-interval overlap on every axis. */
  predicate Intersects(a: AABB, b: AABB)
  {
    && b.max.x >= a.min.x && b.min.x <= a.max.x
    && b.max.y >= a.min.y && b.min.y <= a.max.y
    && b.max.z >= a.min.z && b.min.z <= a.max.z
  }

  /** `outer` encloses `inner` on every axis. */
  predicate Contains(outer: AABB, inner: AABB)
  {
    && outer.min.x <= inner.min.x && inner.max.x <= outer.max.x
    && outer.min.y <= inner.min.y && inner.max.y <= outer.max.y
    && outer.min.z <= inner.min.z && inner.max.z <= outer.max.z
  }

  function Min(a: real, b: real): real { if a <= b then a else b }
  function Max(a: real, b: real): real { if a <= b then b else a }

  /** The smallest box enclosing both boxes. */
  function Union(a: AABB, b: AABB): (u: AABB)
    ensures Contains(u, a) && Contains(u, b)
  {
    AABB(Vec3(Min(a.min.x, b.min.x), Min(a.min.y, b.min.y), Min(a.min.z, b.min.z)),
         Vec3(Max(a.max.x, b.max.x), Max(a.max.y, b.max.y), Max(a.max.z, b.max.z)))
  }

  /** A box that meets `inner` meets every box enclosing `inner`. */
  lemma IntersectsEnclosing(probe: AABB, inner: AABB, outer: AABB)
    requires Contains(outer, inner) && Intersects(probe, inner)
    ensures Intersects(probe, outer)
  {
  }
}
