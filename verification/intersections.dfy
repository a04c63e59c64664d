/** Intersection lists: their order, sorting, the choice of the visible hit,
    and the precomputed shading state at a hit. */
module Intersections {
  import opened Wrappers
  import opened Primitives
  import opened Tuples
  import opened Matrices
  import opened Rays
  import opened Shapes

  /** Intersection `operator<`: by t alone, so intersections at one t are
      never ordered, whatever their objects. */
  predicate Before(a: Intersection, b: Intersection)
    ensures a.t == b.t ==> !Before(a, b)
    ensures a.t < b.t ==> Before(a, b) && a != b
  {
    a.t < b.t
  }

  /** Intersection `operator==`: `equal` t values on the same object. The
      object is compared by identity in the source; here shapes are values,
      so identity is value equality. */
  predicate IntersectionEq(a: Intersection, b: Intersection)
    ensures a == b ==> IntersectionEq(a, b)
    ensures IntersectionEq(a, b) <==> a.shape == b.shape && Abs(a.t - b.t) < EPSILON
  {
    ApproxEq(a.t, b.t) && a.shape == b.shape
  }

  /** Neither of two intersections at the same t is before the other,
      whatever their objects. */
  lemma OrderIgnoresObject(a: Intersection, b: Intersection)
    requires a.t == b.t
    ensures !Before(a, b) && !Before(b, a)
    ensures IntersectionEq(a, b) <==> a.shape == b.shape
  {
  }

  /** Each intersection's t is at most the next one's. */
  predicate Sorted(xs: seq<Intersection>) {
    forall i :: 0 < i < |xs| ==> xs[i - 1].t <= xs[i].t
  }

  /** In a sorted list every earlier t is at most every later t. */
  lemma {:induction false} SortedPairwise(xs: seq<Intersection>, i: nat, j: nat)
    requires Sorted(xs) && i <= j < |xs|
    ensures xs[i].t <= xs[j].t
    decreases j - i
  {
    if i < j {
      SortedPairwise(xs, i, j - 1);
    }
  }

  /** Insertion of one intersection into a sorted list. */
  function Insert(x: Intersection, xs: seq<Intersection>): (r: seq<Intersection>)
    requires Sorted(xs)
    ensures Sorted(r)
    ensures multiset(r) == multiset(xs) + multiset{x}
    ensures |r| == |xs| + 1
    ensures r[0] == x || (|xs| > 0 && r[0] == xs[0])
  {
    if |xs| == 0 then [x]
    else if x.t <= xs[0].t then [x] + xs
    else
      assert xs == [xs[0]] + xs[1..];
      [xs[0]] + Insert(x, xs[1..])
  }

  /** `intersections(is)` and the `std::sort` in `intersect_world`: a sorted
      permutation of the input. */
  function Sort(xs: seq<Intersection>): (r: seq<Intersection>)
    ensures Sorted(r)
    ensures multiset(r) == multiset(xs)
    ensures |r| == |xs|
  {
    if |xs| == 0 then []
    else
      assert xs == [xs[0]] + xs[1..];
      Insert(xs[0], Sort(xs[1..]))
  }

  /** Every member of the sorted list comes from the input. */
  lemma SortKeepsMembers(xs: seq<Intersection>)
    ensures forall i :: 0 <= i < |Sort(xs)| ==> Sort(xs)[i] in xs
  {
    var s := Sort(xs);
    forall i | 0 <= i < |s|
      ensures s[i] in xs
    {
      assert s[i] in multiset(s);
    }
  }

  /** Sorting a list that is already sorted gives it back unchanged. */
  lemma {:induction false} SortOfSorted(xs: seq<Intersection>)
    requires Sorted(xs)
    ensures Sort(xs) == xs
  {
    if |xs| > 0 {
      SortOfSorted(xs[1..]);
      assert xs == [xs[0]] + xs[1..];
    }
  }

  /** The index `std::find_if` stops at, searching from `from` for t > 0:
      the first such index, or |xs| when there is none. */
  function FindPositive(xs: seq<Intersection>, from: nat): (k: nat)
    requires from <= |xs|
    ensures from <= k <= |xs|
    ensures forall j :: from <= j < k ==> xs[j].t <= 0.0
    ensures k < |xs| ==> xs[k].t > 0.0
    decreases |xs| - from
  {
    if from == |xs| then from
    else if xs[from].t > 0.0 then from
    else FindPositive(xs, from + 1)
  }

  /** `hit`: the first intersection in list order with t > 0, or none. */
  function Hit(xs: seq<Intersection>): (r: Option<Intersection>)
    ensures r.None? <==> forall i :: 0 <= i < |xs| ==> xs[i].t <= 0.0
    ensures r.Some? ==> exists i :: 0 <= i < |xs| && xs[i] == r.value && r.value.t > 0.0 &&
                                    forall j :: 0 <= j < i ==> xs[j].t <= 0.0
  {
    var k := FindPositive(xs, 0);
    if k == |xs| then None else Some(xs[k])
  }

  /** On a sorted list the hit has the smallest positive t of the list. */
  lemma {:induction false} HitIsSmallestPositive(xs: seq<Intersection>)
    requires Sorted(xs) && Hit(xs).Some?
    ensures forall i :: 0 <= i < |xs| && xs[i].t > 0.0 ==> Hit(xs).value.t <= xs[i].t
  {
    var h := Hit(xs).value;
    var k :| 0 <= k < |xs| && xs[k] == h && h.t > 0.0 && forall j :: 0 <= j < k ==> xs[j].t <= 0.0;
    forall i | 0 <= i < |xs| && xs[i].t > 0.0
      ensures h.t <= xs[i].t
    {
      assert i >= k;
      SortedPairwise(xs, k, i);
    }
  }

  /** Sorting does not change whether there is a hit. */
  lemma {:induction false} SortKeepsHit(xs: seq<Intersection>)
    ensures Hit(Sort(xs)).Some? <==> Hit(xs).Some?
  {
    var s := Sort(xs);
    if Hit(xs).Some? {
      var k :| 0 <= k < |xs| && xs[k] == Hit(xs).value && xs[k].t > 0.0;
      assert xs[k] in multiset(xs);
      assert xs[k] in multiset(s);
      var i :| 0 <= i < |s| && s[i] == xs[k];
    }
    if Hit(s).Some? {
      var k :| 0 <= k < |s| && s[k] == Hit(s).value && s[k].t > 0.0;
      assert s[k] in multiset(s);
      assert s[k] in multiset(xs);
      var i :| 0 <= i < |xs| && xs[i] == s[k];
    }
  }

  /** The state `prepare_computations` hands to shading. The refraction
      fields n1, n2 and under_point are never filled in and are left out. */
  datatype Computations = Computations(
    t: real,
    shape: Shape,
    point: Tuple,
    eyev: Tuple,
    normalv: Tuple,
    inside: bool,
    overPoint: Tuple,
    reflectv: Tuple)

  /** The normal turned to face the eye, and whether it had to be turned. */
  function FaceEye(normal: Tuple, eyev: Tuple): (r: (Tuple, bool))
    ensures Dot(r.0, eyev) >= 0.0
    ensures r.1 <==> Dot(normal, eyev) < 0.0
    ensures r.0 == if r.1 then Neg(normal) else normal
  {
    var inside := Dot(normal, eyev) < 0.0;
    DotOfNeg(normal, eyev);
    (if inside then Neg(normal) else normal, inside)
  }

  /** `prepare_computations`: the hit point, the eye vector, the normal
      turned towards the eye, the reflected ray direction, and the point
      nudged off the surface by EPSILON along the normal. */
  function PrepareComputations(ir: Irrationals, i: Intersection, ray: Ray): (r: Result<Computations>)
    ensures r.Failure? <==> !Invertible(i.shape.transform)
    ensures r.Failure? ==> r.error == NotInvertible
    ensures r.Success? ==>
              var c := r.value;
              c.t == i.t && c.shape == i.shape &&
              c.point == Position(ray, i.t) && c.eyev == Neg(ray.direction) &&
              Dot(c.normalv, c.eyev) >= 0.0
  {
    var point := Position(ray, i.t);
    var eyev := Neg(ray.direction);
    var normal :- NormalAt(ir, i.shape, point);
    var (normalv, inside) := FaceEye(normal, eyev);
    Success(Computations(i.t, i.shape, point, eyev, normalv, inside,
                         Add(point, Scale(normalv, EPSILON)), Reflect(ray.direction, normalv)))
  }

  /** The hit is inside the object exactly when the outward normal faces
      away from the eye, and then the stored normal is its negation. */
  lemma {:induction false} InsideFlipsNormal(ir: Irrationals, i: Intersection, ray: Ray)
    requires Invertible(i.shape.transform)
    ensures var c := PrepareComputations(ir, i, ray).value;
            var n := NormalAt(ir, i.shape, Position(ray, i.t)).value;
            (c.inside <==> Dot(n, Neg(ray.direction)) < 0.0) &&
            c.normalv == (if c.inside then Neg(n) else n)
  {
  }

  /** The over point lies on the eye's side of the surface. */
  lemma {:induction false} OverPointFacesEye(ir: Irrationals, i: Intersection, ray: Ray)
    requires Invertible(i.shape.transform)
    ensures var c := PrepareComputations(ir, i, ray).value;
            Sub(c.overPoint, c.point) == Scale(c.normalv, EPSILON) &&
            Dot(Sub(c.overPoint, c.point), c.eyev) >= 0.0 &&
            c.reflectv == Reflect(ray.direction, c.normalv)
  {
    var c := PrepareComputations(ir, i, ray).value;
    AddSubCancel(c.point, Scale(c.normalv, EPSILON));
    ScaledNormalFacesEye(c.normalv, c.eyev, Sub(c.overPoint, c.point));
  }

  lemma ScaledNormalFacesEye(n: Tuple, e: Tuple, d: Tuple)
    requires Dot(n, e) >= 0.0 && d == Scale(n, EPSILON)
    ensures Dot(d, e) >= 0.0
  {
    DotOfScale(n, EPSILON, e);
  }
}
