/** Shapes in object space: the unit cube, the xz plane and the unit sphere,
    each with a transform into world space and a material, and the
    intersections a ray makes with them. */
module Shapes {
  import opened Wrappers
  import opened Primitives
  import opened Tuples
  import opened Matrices
  import opened Rays
  import opened Materials

  datatype ShapeKind = Cube | Plane | Sphere

  /** A shape: what it is, where it is, and what it is made of. */
  datatype Shape = Shape(kind: ShapeKind, transform: Matrix4, material: Material)

  /** An intersection: the ray parameter t and the object that was hit. */
  datatype Intersection = Intersection(t: real, shape: Shape)

  /** `cube()`, `plane()` and `sphere()`: the identity transform and the
      default material. */
  function NewShape(kind: ShapeKind): (s: Shape)
    ensures s.kind == kind && s.transform == IdentityMatrix() && s.material == DefaultMaterial()
  {
    Shape(kind, IdentityMatrix(), DefaultMaterial())
  }

  /** `glass_sphere()`: a sphere whose default material is made fully
      transparent, with the refractive index of glass. */
  function GlassSphere(): (s: Shape)
    ensures s.kind == Sphere && s.transform == IdentityMatrix()
    ensures s.material.transparency == 1.0 && s.material.refractiveIndex == 1.5
    ensures s.material == DefaultMaterial().(transparency := 1.0, refractiveIndex := 1.5)
  {
    var s := NewShape(Sphere);
    s.(material := s.material.(transparency := 1.0, refractiveIndex := 1.5))
  }

  /** `set_transform`. */
  function SetTransform(s: Shape, m: Matrix4): (r: Shape)
    ensures r.kind == s.kind && r.material == s.material && r.transform == m
  {
    s.(transform := m)
  }

  /** Shape `operator==`: the transforms and the materials compare equal.
      The kind of shape is not compared, so any two shapes with one transform
      and one material are equal. */
  predicate ShapeEq(a: Shape, b: Shape)
    ensures a.transform == b.transform && a.material == b.material ==> ShapeEq(a, b)
  {
    MatrixEq(a.transform, b.transform) && MaterialEq(a.material, b.material)
  }

  /** A fresh cube and a fresh sphere compare equal, while a glass sphere
      and a plain sphere do not. */
  lemma ShapeEqIgnoresKind()
    ensures ShapeEq(NewShape(Cube), NewShape(Sphere))
    ensures !ShapeEq(GlassSphere(), NewShape(Sphere))
  {
    MatrixEqReflexive(IdentityMatrix());
  }

  // ---------------------------------------------------------------------
  // Cube

  /** In-slab test on one axis, as CheckAxis sees it: a direction below
      EPSILON counts as parallel to the faces. */
  predicate InSlab(origin: real, direction: real, t: real) {
    if Abs(direction) >= EPSILON then -1.0 <= origin + t * direction <= 1.0
    else -1.0 <= origin <= 1.0
  }

  /** The ray is inside the unit cube at parameter t. */
  predicate InsideCube(ray: Ray, t: real) {
    InSlab(ray.origin.x, ray.direction.x, t) &&
    InSlab(ray.origin.y, ray.direction.y, t) &&
    InSlab(ray.origin.z, ray.direction.z, t)
  }

  /** The largest of the three slab minima and the smallest of the three
      slab maxima. */
  function CubeBounds(ray: Ray): (ExtReal, ExtReal) {
    var x := CheckAxis(ray.origin.x, ray.direction.x);
    var y := CheckAxis(ray.origin.y, ray.direction.y);
    var z := CheckAxis(ray.origin.z, ray.direction.z);
    (Max(Max(x.0, y.0), z.0), Min(Min(x.1, y.1), z.1))
  }

  /** `Cube::local_intersect`: both bounds when they are in order, else none. */
  function CubeIntersect(s: Shape, ray: Ray): (r: seq<Intersection>)
    ensures |r| == 0 || |r| == 2
    ensures forall i :: 0 <= i < |r| ==> r[i].shape == s
    ensures |r| == 2 ==> r[0].t <= r[1].t
  {
    var (tmin, tmax) := CubeBounds(ray);
    if Le(tmin, tmax) && tmin.Fin? && tmax.Fin? then
      [Intersection(tmin.v, s), Intersection(tmax.v, s)]
    else
      []
  }

  /** t lies within all three slab pairs exactly when it lies between the
      largest minimum and the smallest maximum. */
  lemma WithinAllSlabs(ray: Ray, t: real)
    ensures var x := CheckAxis(ray.origin.x, ray.direction.x);
            var y := CheckAxis(ray.origin.y, ray.direction.y);
            var z := CheckAxis(ray.origin.z, ray.direction.z);
            Within(t, CubeBounds(ray)) <==> Within(t, x) && Within(t, y) && Within(t, z)
  {
  }

  /** With at least one direction component of EPSILON or more, the cube
      bounds are finite whenever some t lies within them. */
  lemma {:induction false} BoundsFiniteWhenWithin(ray: Ray, t: real)
    requires Abs(ray.direction.x) >= EPSILON || Abs(ray.direction.y) >= EPSILON || Abs(ray.direction.z) >= EPSILON
    requires Within(t, CubeBounds(ray))
    ensures CubeBounds(ray).0.Fin? && CubeBounds(ray).1.Fin?
  {
  }

  /** InsideCube is being within the three CheckAxis pairs. */
  lemma {:induction false} InsideCubeIsWithinSlabs(ray: Ray, t: real)
    ensures InsideCube(ray, t) <==>
              Within(t, CheckAxis(ray.origin.x, ray.direction.x)) &&
              Within(t, CheckAxis(ray.origin.y, ray.direction.y)) &&
              Within(t, CheckAxis(ray.origin.z, ray.direction.z))
  {
    InSlabIsWithin(ray.origin.x, ray.direction.x, t);
    InSlabIsWithin(ray.origin.y, ray.direction.y, t);
    InSlabIsWithin(ray.origin.z, ray.direction.z, t);
  }

  lemma {:induction false} InSlabIsWithin(origin: real, direction: real, t: real)
    ensures InSlab(origin, direction, t) <==> Within(t, CheckAxis(origin, direction))
  {
    CheckAxisIsSlab(origin, direction, -1.0, 1.0, t);
  }

  /** The two cube intersections enclose exactly the parameters within the
      cube bounds, when some direction component reaches EPSILON. */
  lemma {:induction false} CubeIntersectionsAreTheBounds(s: Shape, ray: Ray, t: real)
    requires Abs(ray.direction.x) >= EPSILON || Abs(ray.direction.y) >= EPSILON || Abs(ray.direction.z) >= EPSILON
    ensures var r := CubeIntersect(s, ray);
            |r| == 2 && r[0].t <= t <= r[1].t <==> Within(t, CubeBounds(ray))
  {
    if Within(t, CubeBounds(ray)) {
      BoundsFiniteWhenWithin(ray, t);
    }
  }

  /** Between its two intersections, and only there, the ray is inside the
      cube, unless all three direction components are below EPSILON. */
  lemma {:induction false} CubeIntersectionsBoundTheCube(s: Shape, ray: Ray, t: real)
    requires Abs(ray.direction.x) >= EPSILON || Abs(ray.direction.y) >= EPSILON || Abs(ray.direction.z) >= EPSILON
    ensures var r := CubeIntersect(s, ray);
            |r| == 2 && r[0].t <= t <= r[1].t <==> InsideCube(ray, t)
  {
    InsideCubeIsWithinSlabs(ray, t);
    WithinAllSlabs(ray, t);
    CubeIntersectionsAreTheBounds(s, ray, t);
  }

  /** `Cube::local_normal_at`: keep the component of largest magnitude. */
  function CubeNormal(pt: Tuple): (n: Tuple)
    ensures IsVector(n)
  {
    var maxc := RealMax(RealMax(Abs(pt.x), Abs(pt.y)), Abs(pt.z));
    if maxc == Abs(pt.x) then Vector(pt.x, 0.0, 0.0)
    else if maxc == Abs(pt.y) then Vector(0.0, pt.y, 0.0)
    else Vector(0.0, 0.0, pt.z)
  }

  function RealMax(a: real, b: real): real {
    if a < b then b else a
  }

  /** The cube normal by comparisons: x wins ties with y and z, y wins ties
      with z. */
  lemma CubeNormalIsDominantAxis(pt: Tuple)
    ensures CubeNormal(pt) ==
              if Abs(pt.x) >= Abs(pt.y) && Abs(pt.x) >= Abs(pt.z) then Vector(pt.x, 0.0, 0.0)
              else if Abs(pt.y) >= Abs(pt.z) then Vector(0.0, pt.y, 0.0)
              else Vector(0.0, 0.0, pt.z)
  {
  }

  // ---------------------------------------------------------------------
  // Plane

  /** `Plane::local_intersect`: none for a ray (nearly) parallel to the
      plane, otherwise the single parameter at which y reaches 0. */
  function PlaneIntersect(s: Shape, ray: Ray): (r: seq<Intersection>)
    ensures |r| == 0 <==> Abs(ray.direction.y) < EPSILON
    ensures |r| <= 1
    ensures |r| == 1 ==> r[0].shape == s && Position(ray, r[0].t).y == 0.0
  {
    if Abs(ray.direction.y) < EPSILON then []
    else
      var t := -ray.origin.y / ray.direction.y;
      [Intersection(t, s)]
  }

  /** The plane intersection is the only parameter at which the ray meets y = 0. */
  lemma PlaneRootIsUnique(s: Shape, ray: Ray, t: real)
    requires Abs(ray.direction.y) >= EPSILON
    ensures Position(ray, t).y == 0.0 <==> t == PlaneIntersect(s, ray)[0].t
  {
  }

  // ---------------------------------------------------------------------
  // Sphere

  /** The coefficients a, b, c of a t^2 + b t + c = 0 for the unit sphere
      at the origin, and the discriminant b^2 - 4 a c. */
  datatype Quadratic = Quadratic(a: real, b: real, c: real, discriminant: real)

  function SphereQuadratic(ray: Ray): (q: Quadratic)
    ensures q.a >= 0.0
    ensures q.discriminant == q.b * q.b - 4.0 * q.a * q.c
  {
    var sphereToRay := Sub(ray.origin, Point(0.0, 0.0, 0.0));
    var a := Dot(ray.direction, ray.direction);
    var b := 2.0 * Dot(ray.direction, sphereToRay);
    var c := Dot(sphereToRay, sphereToRay) - 1.0;
    Quadratic(a, b, c, b * b - 4.0 * a * c)
  }

  /** `Sphere::local_intersect`: none for a negative discriminant, else the
      two roots, the smaller first. A zero direction (a == 0) gives none. */
  function SphereIntersect(ir: Irrationals, s: Shape, ray: Ray): (r: seq<Intersection>)
    ensures var q := SphereQuadratic(ray);
            |r| == (if q.discriminant < 0.0 || q.a == 0.0 then 0 else 2)
    ensures forall i :: 0 <= i < |r| ==> r[i].shape == s
  {
    var q := SphereQuadratic(ray);
    if q.discriminant < 0.0 || q.a == 0.0 then []
    else
      var root := ir.sqrt(q.discriminant);
      [Intersection((-q.b - root) / (2.0 * q.a), s), Intersection((-q.b + root) / (2.0 * q.a), s)]
  }

  /** `sqrt` behaves as the square root at v. */
  predicate SqrtAt(ir: Irrationals, v: real) {
    ir.sqrt(v) >= 0.0 && ir.sqrt(v) * ir.sqrt(v) == v
  }

  /** With a true square root the roots come in order, and coincide for a
      tangent ray. */
  lemma {:induction false} SphereRootsOrdered(ir: Irrationals, s: Shape, ray: Ray)
    requires SqrtAt(ir, SphereQuadratic(ray).discriminant)
    ensures var r := SphereIntersect(ir, s, ray);
            |r| == 2 ==> r[0].t <= r[1].t && (SphereQuadratic(ray).discriminant == 0.0 <==> r[0].t == r[1].t)
  {
    var q := SphereQuadratic(ray);
    if !(q.discriminant < 0.0 || q.a == 0.0) {
      var root := ir.sqrt(q.discriminant);
      assert q.a > 0.0;
      QuotientOrder(-q.b - root, -q.b + root, 2.0 * q.a);
      RootOfZero(q.discriminant, root);
    }
  }

  /** A non-negative square root vanishes exactly when its square does. */
  lemma RootOfZero(d: real, root: real)
    requires root >= 0.0 && root * root == d
    ensures d == 0.0 <==> root == 0.0
  {
    if root > 0.0 {
      calc {
        d;
      ==
        root * root;
      > { PositiveProduct(root, root); }
        0.0;
      }
    }
  }

  lemma PositiveProduct(a: real, b: real)
    requires a > 0.0 && b > 0.0
    ensures a * b > 0.0
  {
  }

  lemma QuotientOrder(u: real, v: real, d: real)
    requires d > 0.0
    ensures u <= v <==> u / d <= v / d
    ensures u == v <==> u / d == v / d
  {
    assert u / d * d == u && v / d * d == v;
    assert v - u == (v / d - u / d) * d;
  }

  /** A root of a t^2 + b t + c, written from a square root of the discriminant. */
  lemma {:induction false} QuadraticRoot(a: real, b: real, c: real, root: real, t: real)
    requires a != 0.0 && root * root == b * b - 4.0 * a * c
    requires t == (-b - root) / (2.0 * a) || t == (-b + root) / (2.0 * a)
    ensures a * t * t + b * t + c == 0.0
  {
    var u := 2.0 * a * t + b;
    assert u == root || u == -root;
    assert u * u == root * root;
    calc {
      4.0 * a * (a * t * t + b * t + c);
      u * u - (b * b - 4.0 * a * c);
      0.0;
    }
  }

  /** Squared distance from the sphere centre along the ray is the
      quadratic plus one. */
  lemma {:induction false} SquaredDistanceAlongRay(ray: Ray, t: real)
    ensures var d := Sub(Position(ray, t), Point(0.0, 0.0, 0.0));
            var q := SphereQuadratic(ray);
            Dot(d, d) == q.a * t * t + q.b * t + q.c + 1.0
  {
    var s := Sub(ray.origin, Point(0.0, 0.0, 0.0));
    var p := Sub(Position(ray, t), Point(0.0, 0.0, 0.0));
    assert p == Add(s, Scale(ray.direction, t));
    SquaredDistanceOf(s, ray.direction, t, p);
  }

  /** |s + v t|^2 expanded by the bilinearity of Dot. */
  lemma {:induction false} SquaredDistanceOf(s: Tuple, v: Tuple, t: real, p: Tuple)
    requires p == Add(s, Scale(v, t))
    ensures Dot(p, p) == Dot(v, v) * t * t + 2.0 * Dot(v, s) * t + (Dot(s, s) - 1.0) + 1.0
  {
    DotOfAffine(p, s, v, t);
    DotOfAffine(s, s, v, t);
    DotOfAffine(v, s, v, t);
    DotSymmetric(p, s);
    DotSymmetric(p, v);
    DotSymmetric(s, v);
    Expand(Dot(s, s), Dot(v, s), Dot(v, v), t, Dot(p, p), Dot(p, s), Dot(p, v));
  }

  lemma Expand(ss: real, sv: real, vv: real, t: real, pp: real, ps: real, pv: real)
    requires pp == ps + t * pv && ps == ss + t * sv && pv == sv + t * vv
    ensures pp == vv * t * t + 2.0 * sv * t + (ss - 1.0) + 1.0
  {
  }

  /** With a true square root, both sphere intersections lie on the unit
      sphere: the squared distance from the centre is 1. */
  lemma {:induction false} SphereRootsOnSurface(ir: Irrationals, s: Shape, ray: Ray, i: nat)
    requires SqrtAt(ir, SphereQuadratic(ray).discriminant)
    requires i < |SphereIntersect(ir, s, ray)|
    ensures var d := Sub(Position(ray, SphereIntersect(ir, s, ray)[i].t), Point(0.0, 0.0, 0.0));
            Dot(d, d) == 1.0
  {
    var q := SphereQuadratic(ray);
    var t := SphereIntersect(ir, s, ray)[i].t;
    QuadraticRoot(q.a, q.b, q.c, ir.sqrt(q.discriminant), t);
    SquaredDistanceAlongRay(ray, t);
  }

  // ---------------------------------------------------------------------
  // Dispatch

  /** `local_intersect`, dispatched on the kind of shape. */
  function LocalIntersect(ir: Irrationals, s: Shape, ray: Ray): (r: seq<Intersection>)
    ensures |r| <= 2
    ensures forall i :: 0 <= i < |r| ==> r[i].shape == s
  {
    match s.kind
    case Cube => CubeIntersect(s, ray)
    case Plane => PlaneIntersect(s, ray)
    case Sphere => SphereIntersect(ir, s, ray)
  }

  /** `local_normal_at`, dispatched on the kind of shape. */
  function LocalNormalAt(kind: ShapeKind, pt: Tuple): (n: Tuple)
    ensures kind == Plane ==> n == Vector(0.0, 1.0, 0.0)
    ensures kind == Sphere ==> n == Sub(pt, Point(0.0, 0.0, 0.0))
    ensures kind == Sphere && IsPoint(pt) ==> IsVector(n)
    ensures kind == Cube ==> IsVector(n)
  {
    match kind
    case Cube => CubeNormal(pt)
    case Plane => Vector(0.0, 1.0, 0.0)
    case Sphere => Sub(pt, Point(0.0, 0.0, 0.0))
  }

  /** `intersect`: the ray is taken into object space by the inverse of the
      shape's transform; a singular transform is an error. */
  function Intersect(ir: Irrationals, s: Shape, ray: Ray): (r: Result<seq<Intersection>>)
    ensures r.Failure? <==> !Invertible(s.transform)
    ensures r.Failure? ==> r.error == NotInvertible
    ensures r.Success? ==> |r.value| <= 2 && forall i :: 0 <= i < |r.value| ==> r.value[i].shape == s
  {
    var inv :- Inverse4(s.transform);
    Success(LocalIntersect(ir, s, Transform(ray, inv)))
  }

  /** On an untransformed shape, `intersect` is `local_intersect` on the ray itself. */
  lemma {:induction false} IntersectUntransformed(ir: Irrationals, s: Shape, ray: Ray)
    requires s.transform == IdentityMatrix()
    ensures Intersect(ir, s, ray) == Success(LocalIntersect(ir, s, ray))
  {
    InverseOfIdentityMatrix();
    IdentityMulTuple(ray.origin);
    IdentityMulTuple(ray.direction);
  }

  /** `intersect` sees the ray through the inverse transform: a shape moved
      by m is met where the ray moved by the inverse of m meets the shape
      left in place. */
  lemma {:induction false} IntersectMovesTheRay(ir: Irrationals, s: Shape, ray: Ray)
    requires Invertible(s.transform)
    ensures Intersect(ir, s, ray) ==
              Success(LocalIntersect(ir, s, Ray(MulTuple(Inverse4(s.transform).value, ray.origin),
                                                MulTuple(Inverse4(s.transform).value, ray.direction))))
  {
  }

  /** `normal_at`: the point is taken into object space, the local normal is
      taken back by the transposed inverse, w is reset to 0, and the result
      is normalized. */
  function NormalAt(ir: Irrationals, s: Shape, worldPoint: Tuple): (r: Result<Tuple>)
    ensures r.Failure? <==> !Invertible(s.transform)
    ensures r.Failure? ==> r.error == NotInvertible
  {
    var inv :- Inverse4(s.transform);
    var localPoint := MulTuple(inv, worldPoint);
    var localNormal := LocalNormalAt(s.kind, localPoint);
    var transposed: Matrix4 := Transpose(inv);
    var worldNormal := MulTuple(transposed, localNormal).(w := 0.0);
    Success(ir.normalize(worldNormal))
  }

  /** `normal_at` once the inverse is known: the local normal at the point
      taken into object space, carried back by the transposed inverse, with
      w reset to 0, normalized. */
  lemma NormalAtThroughInverse(ir: Irrationals, s: Shape, worldPoint: Tuple, inv: Matrix4)
    requires Inverse4(s.transform) == Success(inv)
    ensures NormalAt(ir, s, worldPoint) ==
              Success(ir.normalize(MulTuple(Transpose(inv), LocalNormalAt(s.kind, MulTuple(inv, worldPoint))).(w := 0.0)))
  {
  }

  /** On an untransformed shape the world normal is the local normal at the
      world point, with w reset to 0, normalized. */
  lemma {:induction false} NormalAtUntransformed(ir: Irrationals, s: Shape, worldPoint: Tuple)
    requires s.transform == IdentityMatrix()
    ensures NormalAt(ir, s, worldPoint) == Success(ir.normalize(LocalNormalAt(s.kind, worldPoint).(w := 0.0)))
  {
    InverseOfIdentityMatrix();
    TransposeOfIdentity(4);
    var n := LocalNormalAt(s.kind, worldPoint);
    NormalAtThroughInverse(ir, s, worldPoint, IdentityMatrix());
    assert MulTuple(IdentityMatrix(), worldPoint) == worldPoint;
    assert MulTuple(Transpose(IdentityMatrix()), n) == n;
  }
}
