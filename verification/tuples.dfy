/** Homogeneous 4-tuples: a point carries w = 1 and a vector w = 0, and all
    arithmetic is componentwise over the four components, w included. */
module Tuples {
  import opened Primitives

  datatype Tuple = Tuple(x: real, y: real, z: real, w: real)

  /** The irrational functions of the C library that the kernel calls:
      `std::sqrt`, `std::pow`, and the tuple `normalize` built from them.
      They are supplied by the caller and left uninterpreted. */
  datatype Irrationals = Irrationals(
    sqrt: real -> real,
    pow: (real, real) -> real,
    normalize: Tuple -> Tuple)

  function Point(x: real, y: real, z: real): (p: Tuple)
    ensures IsPoint(p) && !IsVector(p)
  {
    Tuple(x, y, z, 1.0)
  }

  function Vector(x: real, y: real, z: real): (v: Tuple)
    ensures IsVector(v) && !IsPoint(v)
  {
    Tuple(x, y, z, 0.0)
  }

  /** A tuple is a point exactly when its w tag is 1. */
  predicate IsPoint(t: Tuple) {
    t.w == 1.0
  }

  /** A tuple is a vector exactly when its w tag is 0. */
  predicate IsVector(t: Tuple) {
    t.w == 0.0
  }

  function Neg(t: Tuple): Tuple {
    Tuple(-t.x, -t.y, -t.z, -t.w)
  }

  function Add(a: Tuple, b: Tuple): Tuple {
    Tuple(a.x + b.x, a.y + b.y, a.z + b.z, a.w + b.w)
  }

  function Sub(a: Tuple, b: Tuple): Tuple {
    Tuple(a.x - b.x, a.y - b.y, a.z - b.z, a.w - b.w)
  }

  function Scale(t: Tuple, k: real): Tuple {
    Tuple(t.x * k, t.y * k, t.z * k, t.w * k)
  }

  function Divide(t: Tuple, k: real): Tuple
    requires k != 0.0
  {
    Tuple(t.x / k, t.y / k, t.z / k, t.w / k)
  }

  function Dot(a: Tuple, b: Tuple): real {
    a.x * b.x + a.y * b.y + a.z * b.z + a.w * b.w
  }

  /** `cross`: a vector orthogonal to both of its vector arguments. */
  function Cross(a: Tuple, b: Tuple): (r: Tuple)
    ensures IsVector(r)
    ensures IsVector(a) ==> Dot(r, a) == 0.0
    ensures IsVector(b) ==> Dot(r, b) == 0.0
  {
    Tuple(a.y * b.z - a.z * b.y,
          a.z * b.x - a.x * b.z,
          a.x * b.y - a.y * b.x,
          0.0)
  }

  /** `reflect`: `in - normal * 2 * dot(in, normal)`. A vector reflected
      off a vector is a vector, and off a unit normal the component along
      the normal changes sign. */
  function Reflect(v: Tuple, normal: Tuple): (r: Tuple)
    ensures IsVector(v) && IsVector(normal) ==> IsVector(r)
    ensures Dot(normal, normal) == 1.0 ==> Dot(r, normal) == -Dot(v, normal)
  {
    var d := Dot(v, normal);
    DotOfSub(v, Scale(Scale(normal, 2.0), d), normal);
    DotOfScale(Scale(normal, 2.0), d, normal);
    DotOfScale(normal, 2.0, normal);
    Sub(v, Scale(Scale(normal, 2.0), d))
  }

  /** `magnitude`: the square root of the sum of the four squared components. */
  function Magnitude(ir: Irrationals, t: Tuple): real {
    ir.sqrt(t.x * t.x + t.y * t.y + t.z * t.z + t.w * t.w)
  }

  /** Tuple `operator==`: `equal` on each of x, y, z and w. */
  predicate TupleEq(a: Tuple, b: Tuple) {
    ApproxEq(a.x, b.x) && ApproxEq(a.y, b.y) && ApproxEq(a.z, b.z) && ApproxEq(a.w, b.w)
  }

  lemma TupleEqIsComponentwiseTolerance(a: Tuple, b: Tuple)
    ensures TupleEq(a, b) <==>
              Abs(a.x - b.x) < EPSILON && Abs(a.y - b.y) < EPSILON &&
              Abs(a.z - b.z) < EPSILON && Abs(a.w - b.w) < EPSILON
  {
  }

  lemma TupleEqReflexive(a: Tuple)
    ensures TupleEq(a, a)
  {
  }

  /** The point/vector algebra of the homogeneous tag. */
  lemma TagAlgebra(a: Tuple, b: Tuple)
    ensures IsPoint(a) && IsPoint(b) ==> IsVector(Sub(a, b))
    ensures IsPoint(a) && IsVector(b) ==> IsPoint(Sub(a, b)) && IsPoint(Add(a, b)) && IsPoint(Add(b, a))
    ensures IsVector(a) && IsVector(b) ==> IsVector(Add(a, b)) && IsVector(Sub(a, b))
    ensures IsVector(a) ==> IsVector(Neg(a))
  {
  }

  lemma NegInvolution(t: Tuple)
    ensures Neg(Neg(t)) == t
  {
  }

  lemma NegIsSubtractionFromZero(t: Tuple)
    ensures Neg(t) == Sub(Tuple(0.0, 0.0, 0.0, 0.0), t)
  {
  }

  lemma AddSubCancel(a: Tuple, b: Tuple)
    ensures Sub(Add(a, b), b) == a
  {
  }

  lemma DotSymmetric(a: Tuple, b: Tuple)
    ensures Dot(a, b) == Dot(b, a)
  {
  }

  lemma DotOfNeg(a: Tuple, b: Tuple)
    ensures Dot(Neg(a), b) == -Dot(a, b)
    ensures Dot(a, Neg(b)) == -Dot(a, b)
  {
  }

  /** The cross product is a vector, anti-commutes, and is orthogonal to both
      of its arguments (the w parts do not take part). */
  lemma CrossProperties(a: Tuple, b: Tuple)
    ensures IsVector(Cross(a, b))
    ensures Cross(a, b) == Neg(Cross(b, a))
    ensures IsVector(a) ==> Dot(Cross(a, b), a) == 0.0
    ensures IsVector(b) ==> Dot(Cross(a, b), b) == 0.0
  {
  }

  lemma ReflectVectorIsVector(v: Tuple, n: Tuple)
    requires IsVector(v) && IsVector(n)
    ensures IsVector(Reflect(v, n))
  {
  }

  lemma DotOfScale(u: Tuple, k: real, t: Tuple)
    ensures Dot(Scale(u, k), t) == k * Dot(u, t)
  {
  }

  lemma DotOfAdd(u: Tuple, v: Tuple, t: Tuple)
    ensures Dot(Add(u, v), t) == Dot(u, t) + Dot(v, t)
  {
  }

  lemma DotOfSub(u: Tuple, v: Tuple, t: Tuple)
    ensures Dot(Sub(u, v), t) == Dot(u, t) - Dot(v, t)
  {
  }

  /** Off a unit normal, reflection negates the normal component. */
  lemma ReflectNegatesNormalPart(v: Tuple, n: Tuple)
    requires Dot(n, n) == 1.0
    ensures Dot(Reflect(v, n), n) == -Dot(v, n)
  {
  }

  /** Subtracting k * n and then -k * n gives back the starting tuple. */
  lemma SubOppositeMultiples(v: Tuple, m: Tuple, k: real)
    ensures Sub(Sub(v, Scale(m, k)), Scale(m, -k)) == v
  {
  }

  /** Off a unit normal, reflecting twice gives back the incoming vector. */
  lemma {:induction false} ReflectAboutUnitNormal(v: Tuple, n: Tuple)
    requires Dot(n, n) == 1.0
    ensures Reflect(Reflect(v, n), n) == v
  {
    ReflectNegatesNormalPart(v, n);
    SubOppositeMultiples(v, Scale(n, 2.0), Dot(v, n));
  }

  /** Dot is linear in its right argument. */
  lemma DotOfAffine(u: Tuple, a: Tuple, b: Tuple, k: real)
    ensures Dot(u, Add(a, Scale(b, k))) == Dot(u, a) + k * Dot(u, b)
  {
  }
}
