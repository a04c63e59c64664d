/** Rays: an origin and a direction, the point reached at parameter t, and
    the image of a ray under a transformation matrix. */
module Rays {
  import opened Primitives
  import opened Tuples
  import opened Matrices
  import opened Transformations

  /** `ray(origin, direction)` stores both tuples unchanged. */
  datatype Ray = Ray(origin: Tuple, direction: Tuple)

  /** `position`: the point origin + direction * t. */
  function Position(r: Ray, t: real): (p: Tuple)
    ensures IsPoint(r.origin) && IsVector(r.direction) ==> IsPoint(p)
    ensures p.x - r.origin.x == r.direction.x * t
    ensures p.y - r.origin.y == r.direction.y * t
    ensures p.z - r.origin.z == r.direction.z * t
  {
    Add(r.origin, Scale(r.direction, t))
  }

  lemma PositionAtZero(r: Ray)
    ensures Position(r, 0.0) == r.origin
  {
  }

  /** Moving s and then t along the ray reaches the same point as moving s + t. */
  lemma PositionAdds(r: Ray, s: real, t: real)
    ensures Position(r, s + t) == Add(Position(r, s), Scale(r.direction, t))
  {
  }

  /** `transform`: m applied separately to the origin and to the direction.
      The identity leaves the ray alone, and a matrix keeping the bottom row
      of the identity keeps the origin a point and the direction a vector. */
  function Transform(r: Ray, m: Matrix4): (q: Ray)
    ensures m == IdentityMatrix() ==> q == r
    ensures KeepsBottomRow(m) && IsPoint(r.origin) ==> IsPoint(q.origin)
    ensures KeepsBottomRow(m) && IsVector(r.direction) ==> IsVector(q.direction)
  {
    Ray(MulTuple(m, r.origin), MulTuple(m, r.direction))
  }

  /** Transforming a ray and then moving along it is moving along it and then
      transforming the point. */
  lemma {:induction false} PositionOfTransform(r: Ray, m: Matrix4, t: real)
    ensures Position(Transform(r, m), t) == MulTuple(m, Position(r, t))
  {
    MulTupleOfAffine(m, r.origin, r.direction, t);
  }

  /** Translating a ray moves its origin and keeps its direction. */
  lemma {:induction false} TranslateRay(r: Ray, x: real, y: real, z: real)
    requires IsPoint(r.origin) && IsVector(r.direction)
    ensures Transform(r, Translation(x, y, z)) == Ray(Add(r.origin, Vector(x, y, z)), r.direction)
  {
    TranslationMoves(x, y, z, r.origin);
    TranslationMoves(x, y, z, r.direction);
  }

  /** Scaling a ray scales its origin and its direction alike. */
  lemma {:induction false} ScaleRay(r: Ray, x: real, y: real, z: real)
    ensures Transform(r, Scaling(x, y, z)) ==
              Ray(Tuple(r.origin.x * x, r.origin.y * y, r.origin.z * z, r.origin.w),
                  Tuple(r.direction.x * x, r.direction.y * y, r.direction.z * z, r.direction.w))
  {
    ScalingScales(x, y, z, r.origin);
    ScalingScales(x, y, z, r.direction);
  }

  /** Ray `operator==`: tuple equality on origin and on direction. */
  predicate RayEq(a: Ray, b: Ray) {
    TupleEq(a.origin, b.origin) && TupleEq(a.direction, b.direction)
  }

  lemma RayEqIsComponentwiseTolerance(a: Ray, b: Ray)
    ensures RayEq(a, b) <==>
              Abs(a.origin.x - b.origin.x) < EPSILON && Abs(a.origin.y - b.origin.y) < EPSILON &&
              Abs(a.origin.z - b.origin.z) < EPSILON && Abs(a.origin.w - b.origin.w) < EPSILON &&
              Abs(a.direction.x - b.direction.x) < EPSILON && Abs(a.direction.y - b.direction.y) < EPSILON &&
              Abs(a.direction.z - b.direction.z) < EPSILON && Abs(a.direction.w - b.direction.w) < EPSILON
  {
  }

  lemma RayEqReflexive(a: Ray)
    ensures RayEq(a, a)
  {
  }
}
